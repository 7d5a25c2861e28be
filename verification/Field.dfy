// Arithmetic in the BN254 scalar field, as the Go library (Euclidean remainder)
// and the JavaScript library (remainder with the sign of the dividend) perform it.
module Field {
  import Bits

  const MODULUS: int := 21888242871839275222246405745257275088548364400416034343698204186575808495617
  const TWO_128: int := 340282366920938463463374607431768211456

  // The parameter of the curve family that BN254 belongs to.
  const BN_PARAMETER: int := 4965661367192848881

  /** The decimal text of the modulus is the order of BN254. */
  lemma ModulusIsCurveOrder()
    ensures var x := BN_PARAMETER;
            MODULUS == 36 * (x * x * x * x) + 36 * (x * x * x) + 18 * (x * x) + 6 * x + 1
  {
  }

  lemma Squared(n: nat, v: int)
    requires Bits.Pow2(n) == v
    ensures Bits.Pow2(n + n) == v * v
  {
    Bits.Pow2Sum(n, n);
  }

  /** The decimal text of the nonce's bound is 2^128. */
  lemma BoundIsPower()
    ensures TWO_128 == Bits.Pow2(128)
  {
    Bits.Pow2Byte();
    Squared(8, 0x100);
    Squared(16, 0x1_0000);
    Squared(32, 0x1_0000_0000);
    Squared(64, 0x1_0000_0000_0000_0000);
  }

  type Element = x: int | 0 <= x < MODULUS

  function Reduce(x: int): Element {
    x % MODULUS
  }

  function Add(a: Element, b: Element): Element {
    (a + b) % MODULUS
  }

  function Sub(a: Element, b: Element): Element {
    (a - b) % MODULUS
  }

  predicate Canonical(xs: seq<int>) {
    forall i | 0 <= i < |xs| :: 0 <= xs[i] < MODULUS
  }

  function ReduceAll(xs: seq<int>): seq<int> {
    seq(|xs|, i requires 0 <= i < |xs| => Reduce(xs[i]))
  }

  /** Two integers that differ by a multiple of the modulus have the same residue. */
  lemma SameResidue(x: int, y: int, k: int)
    requires x == y + k * MODULUS
    ensures x % MODULUS == y % MODULUS
  {
    var d := x / MODULUS - y / MODULUS - k;
    assert MODULUS * d == y % MODULUS - x % MODULUS;
  }

  /** Add a key-stream word to a message word. */
  function Mask(m: int, s: int): Element {
    Add(Reduce(m), Reduce(s))
  }

  /** Take a key-stream word off a ciphertext word. */
  function Unmask(c: int, s: int): Element {
    Sub(Reduce(c), Reduce(s))
  }

  lemma UnmaskMask(m: int, s: int)
    ensures Unmask(Mask(m, s), s) == Reduce(m)
  {
    var k := (Reduce(m) + Reduce(s)) / MODULUS;
    assert Mask(m, s) == Reduce(m) + Reduce(s) - k * MODULUS;
    SameResidue(Mask(m, s) - Reduce(s), Reduce(m), -k);
  }

  lemma MaskUnmask(c: int, s: int)
    ensures Mask(Unmask(c, s), s) == Reduce(c)
  {
    var k := (Reduce(c) - Reduce(s)) / MODULUS;
    SameResidue(Unmask(c, s) + Reduce(s), Reduce(c), -k);
  }

  lemma MaskIsSum(m: int, s: int)
    ensures Mask(m, s) == (m + s) % MODULUS
  {
    var k := m / MODULUS + s / MODULUS;
    SameResidue(m + s, Reduce(m) + Reduce(s), k);
  }

  lemma UnmaskIsSum(c: int, s: int)
    ensures Unmask(c, s) == (c + -s) % MODULUS
  {
    var k := c / MODULUS - s / MODULUS;
    SameResidue(c - s, Reduce(c) - Reduce(s), k);
  }

  /** JavaScript's `x % F` on integers: the result has the sign of the dividend. */
  function Rem(x: int): (r: int)
    ensures -MODULUS < r < MODULUS
    ensures x >= 0 ==> r == x % MODULUS
    ensures x < 0 ==> r <= 0 && r % MODULUS == x % MODULUS
  {
    if x >= 0 then x % MODULUS else -((-x) % MODULUS)
  }

  /** One step of the JavaScript sum keeps the residue and stays within one modulus of zero. */
  lemma AddStep(e: int, acc: int)
    ensures -MODULUS < Rem(Rem(e + MODULUS) + acc) < MODULUS
    ensures Rem(Rem(e + MODULUS) + acc) % MODULUS == (e + acc) % MODULUS
  {
    var shifted := Rem(e + MODULUS);
    var k := (shifted - e) / MODULUS;
    assert shifted % MODULUS == e % MODULUS by {
      SameResidue(e + MODULUS, e, 1);
    }
    assert shifted == e + k * MODULUS;
    SameResidue(shifted + acc, e + acc, k);
    assert Rem(shifted + acc) % MODULUS == (shifted + acc) % MODULUS;
  }

  /** The JavaScript sum on arbitrary integers, its correcting loop included. */
  method AddMod(a: int, b: int) returns (result: int, ghost corrections: nat)
    ensures result == (a + b) % MODULUS
    ensures corrections <= 1
  {
    var addMe := [a, b];
    result := 0;
    for i := 0 to |addMe|
      invariant i == 0 ==> result == 0
      invariant i > 0 ==> -MODULUS < result < MODULUS
      invariant i == 1 ==> result % MODULUS == a % MODULUS
      invariant i == 2 ==> result % MODULUS == (a + b) % MODULUS
    {
      AddStep(result, addMe[i]);
      if i == 1 {
        SameResidue(result + b, a + b, result / MODULUS - a / MODULUS);
      }
      result := Rem(Rem(result + MODULUS) + addMe[i]);
    }
    corrections := 0;
    while result < 0
      invariant -MODULUS < result < MODULUS
      invariant result % MODULUS == (a + b) % MODULUS
      invariant corrections <= 1 && (corrections == 1 ==> result >= 0)
    {
      SameResidue(result + MODULUS, result, 1);
      result := result + MODULUS;
      corrections := corrections + 1;
    }
  }
}
