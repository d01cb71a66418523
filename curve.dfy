/** BLS12-381 group elements in the discrete-logarithm representation.

    An element of G1, G2 or the target group is written as its discrete
    logarithm with respect to that group's fixed generator, so the group law
    is field addition, a scalar multiple `g * s` is a field product, negation
    is field negation and the generator is 1.  The pairing of g1^a and g2^b
    is the target element with logarithm a * b. */
module Curve {
  import opened Field

  type G1 = Fe
  type G2 = Fe
  type GT = Fe

  /** `G1::generator()` and `G2::generator()`. */
  const Generator: Fe := 1

  /** `E::pairing(a, b)`. */
  function Pairing(a: G1, b: G2): GT { Mul(a, b) }

  /** `E::multi_pairing(a, b)`: the product (here: sum) of the pairings of
      corresponding elements. */
  function MultiPairing(a: seq<G1>, b: seq<G2>): GT
    requires |a| == |b|
  {
    InnerProduct(a, b)
  }

  /** `msm(bases, scalars)`: the sum of scalars[k] * bases[k]. */
  function Msm(bases: seq<Fe>, scalars: seq<Fe>): Fe
    requires |bases| == |scalars|
  {
    InnerProduct(scalars, bases)
  }

  /** The pairing is bilinear: a scalar on either side comes out. */
  lemma PairingBilinear(a: G1, b: G2, s: Fe)
    ensures Pairing(Mul(a, s), b) == Mul(Pairing(a, b), s)
    ensures Pairing(a, Mul(b, s)) == Mul(Pairing(a, b), s)
  {
    MulAssoc(a, s, b);
    MulComm(s, b);
    MulAssoc(a, b, s);
  }

  /** A multi-pairing splits over concatenated inputs. */
  lemma MultiPairingAppend(a1: seq<G1>, a2: seq<G1>, b1: seq<G2>, b2: seq<G2>)
    requires |a1| == |b1| && |a2| == |b2|
    ensures MultiPairing(a1 + a2, b1 + b2) == Add(MultiPairing(a1, b1), MultiPairing(a2, b2))
  {
    InnerProductAppend(a1, a2, b1, b2);
  }

  /** The msm of one more term adds that term. */
  lemma MsmSnoc(bases: seq<Fe>, scalars: seq<Fe>, b: Fe, s: Fe)
    requires |bases| == |scalars|
    ensures Msm(bases + [b], scalars + [s]) == Add(Msm(bases, scalars), Mul(s, b))
  {
    assert (bases + [b])[..|bases|] == bases;
    assert (scalars + [s])[..|scalars|] == scalars;
  }
}
