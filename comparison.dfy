// What the two implementations have in common: they agree on every input,
// the value they compute is multiplicative in the exponent, and the sample
// call both scripts make has a known result.

module Comparison {
  import opened Power
  import BinaryExponentiation
  import DirectExponentiation

  /**
   * For every base, every exponent (negative ones included) and every positive
   * modulus, square-and-multiply returns exactly what the direct loop returns.
   */
  method BinaryAgreesWithDirect(a: int, b: int, n: int) returns (binary: int, direct: int)
    requires n > 0
    ensures binary == direct == ModPow(a, b, n)
  {
    ghost var s1, s2;
    binary, s1 := BinaryExponentiation.ModularExponentiation(a, b, n);
    direct, s2 := DirectExponentiation.DirectModularExponentiation(a, b, n);
  }

  /**
   * Splitting the exponent multiplies the results modulo n. The one exception
   * is b1 == b2 == 0 with n == 1, where the literal 1 returned for a zero
   * exponent is not reduced (see ZeroExponentIsNotReduced).
   */
  lemma ModPowMultiplicative(a: int, b1: int, b2: int, n: int)
    requires n > 0 && b1 >= 0 && b2 >= 0
    requires b1 + b2 > 0 || n > 1
    ensures ModPow(a, b1 + b2, n) == (ModPow(a, b1, n) * ModPow(a, b2, n)) % n
  {
    if b1 > 0 && b2 > 0 {
      PowAdd(a, b1, b2);
      MulMod(Pow(a, b1), Pow(a, b2), n);
    } else if b1 > 0 {
      ModOfResidue(Pow(a, b1) % n, n);
    } else if b2 > 0 {
      ModOfResidue(Pow(a, b2) % n, n);
    } else {
      ModOfResidue(1, n);
    }
  }

  /**
   * With n == 1 a zero exponent still yields 1, not 1 mod 1 == 0, so the
   * product rule above fails for b1 == b2 == 0.
   */
  lemma ZeroExponentIsNotReduced(a: int)
    ensures ModPow(a, 0, 1) == 1
    ensures ModPow(a, 0 + 0, 1) != (ModPow(a, 0, 1) * ModPow(a, 0, 1)) % 1
  {
  }

  /** Every exponent that is 1 modulo 6 sends 3 to 3 modulo 7, since 3^6 == 729 is 1 modulo 7. */
  lemma {:induction false} PowThreeModSeven(b: int)
    requires b > 0 && b % 6 == 1
    ensures ModPow(3, b, 7) == 3
  {
    var q: nat := b / 6;
    var p := Pow(729, q);
    assert Pow(3, 6) == 729;
    PowAdd(3, 6 * q, 1);
    PowMul(3, 6, q);
    assert Pow(3, b) == p * 3;
    PowMod(729, q, 7);
    PowOne(q);
    assert p % 7 == 1;
    MulModLeft(p, 3, 7);
  }

  /**
   * The sample call of both scripts, 3^102458749 mod 7, yields 3, and the
   * square-and-multiply loop runs 27 times on that exponent. (The exponent is
   * a parameter fixed by the precondition, so that the verifier does not
   * unfold Pow on the literal.)
   */
  lemma SampleCallValue(b: int)
    requires b == 102458749
    ensures ModPow(3, b, 7) == 3
    ensures BitLength(b) == 27
  {
    PowThreeModSeven(b);
    assert Pow(2, 13) == 8192;
    PowAdd(2, 13, 13);
    assert Pow(2, 27) == 2 * Pow(2, 26);
    BitLengthUnique(b, 27);
  }
}
