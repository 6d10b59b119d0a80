/** Negation of an arbitrary-precision value within its own bit length. */
module VarValues {
  import opened BitOps

  /**
   * The complement of v within its bit length: every digit of v up to its
   * highest set bit is flipped.
   */
  function Negated(v: nat): nat
  {
    BitLengthBound(v);
    Ones(BitLength(v)) - v
  }

  /**
   * `negateVarValue`: grows a run of one bits until it exceeds v, drops the
   * last digit again and clears the bits of v from it.
   */
  method NegateVarValue(v: nat) returns (r: nat)
    ensures r == Negated(v)
  {
    var killer: nat := 1;
    ghost var j: nat := 1;
    OnesOne();
    while killer <= v
      invariant j >= 1 && killer == Ones(j) && Ones(j - 1) <= v
      decreases v - killer
    {
      OnesGrow(j);
      killer := Or(killer * 2, 1);
      j := j + 1;
    }
    killer := Shr(killer, 1);
    r := AndNot(killer, v);
    NegateLoopResult(v, j);
  }

  lemma OnesOne()
    ensures Ones(1) == 1 && Ones(0) == 0
  {
    assert Pow2(1) == 2;
  }

  /** Shifting j ones left and or-ing in a one gives j + 1 ones. */
  lemma OnesGrow(j: nat)
    ensures Or(Ones(j) * 2, 1) == Ones(j + 1)
  {
    assert Pow2(1) == 2;
    assert (Ones(j) * 2) % 2 == 0;
    OrDisjointLow(Ones(j) * 2, 1, 1);
  }

  /** What the loop of `NegateVarValue` leaves behind is the complement. */
  lemma NegateLoopResult(v: nat, j: nat)
    requires j >= 1 && Ones(j - 1) <= v < Ones(j)
    ensures AndNot(Shr(Ones(j), 1), v) == Negated(v)
  {
    ShrOnes(j);
    AndNotOnes(j - 1, v);
    NegatedBetween(v, j);
  }

  /** Dropping the last digit of j ones leaves j - 1 ones. */
  lemma ShrOnes(j: nat)
    requires j >= 1
    ensures Shr(Ones(j), 1) == Ones(j - 1)
  {
    var p := Pow2(j - 1);
    assert Pow2(1) == 2;
    assert Ones(j) == 2 * (p - 1) + 1;
    DivModUnique(Ones(j), 2, p - 1, 1);
  }

  /** For v between j - 1 and j ones, the complement is taken within j bits. */
  lemma NegatedBetween(v: nat, j: nat)
    requires j >= 1 && Ones(j - 1) <= v < Ones(j)
    ensures Negated(v) == Ones(j - 1) - v % Pow2(j - 1)
  {
    if v + 1 == Pow2(j - 1) {
      NegatedAllOnes(v, j - 1);
    } else {
      NegatedTopBit(v, j);
    }
  }

  lemma NegatedAllOnes(v: nat, k: nat)
    requires v == Ones(k)
    ensures Negated(v) == 0 && v % Pow2(k) == v
  {
    SmallMod(v, Pow2(k));
    NegatedOnes(k);
  }

  lemma NegatedTopBit(v: nat, j: nat)
    requires j >= 1 && Pow2(j - 1) <= v < Ones(j)
    ensures Negated(v) == Ones(j - 1) - v % Pow2(j - 1)
  {
    var p := Pow2(j - 1);
    assert Pow2(j) == 2 * p;
    DivModUnique(v, p, 1, v - p);
    BitLengthExact(v, j);
  }

  /** The complement is the xor with the all-ones value of the same length. */
  lemma NegatedIsXor(v: nat)
    ensures Negated(v) == Xor(Ones(BitLength(v)), v)
  {
    BitLengthBound(v);
    XorOnes(BitLength(v), v);
  }

  /** The complement has no bit in common with v and fills v's bit length with it. */
  lemma NegatedComplements(v: nat)
    ensures And(Negated(v), v) == 0
    ensures Negated(v) + v == Ones(BitLength(v))
    ensures Negated(v) < Pow2(BitLength(v))
  {
    BitLengthBound(v);
    XorOnes(BitLength(v), v);
    AndOfComplement(BitLength(v), v);
  }

  lemma {:induction false} AndOfComplement(k: nat, v: nat)
    requires v < Pow2(k)
    ensures And(Ones(k) - v, v) == 0
    decreases k
  {
    if k > 0 && v > 0 && Ones(k) - v > 0 {
      AndOfComplement(k - 1, v / 2);
      assert (Ones(k) - v) / 2 == Ones(k - 1) - v / 2;
      assert (Ones(k) - v) % 2 != v % 2;
    }
  }

  /** A run of k ones negates to 0, and 0 negates to 0. */
  lemma NegatedOnes(k: nat)
    ensures Negated(Ones(k)) == 0
  {
    if k >= 1 {
      BitLengthExact(Ones(k), k);
    }
  }
}
