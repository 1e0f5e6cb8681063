// Binary (square-and-multiply) modular exponentiation: the exponent's bits
// are read from the least significant upwards, the base is squared at every
// step and folded into the result when the current bit is 1.

module BinaryExponentiation {
  import opened Power

  /** With an odd exponent, one factor of `base` moves into `result`. */
  lemma OddStep(result: int, base: int, k: nat, n: int)
    requires n > 0 && k % 2 == 1
    ensures (((result * base) % n) * Pow((base * base) % n, k / 2)) % n == (result * Pow(base, k)) % n
  {
    var h := k / 2;
    var m := result * base;
    var p := Pow(base * base, h);
    PowSquare(base, h);
    assert Pow(base, k) == base * p;
    PowMod(base * base, h, n);
    MulModCongruent(m % n, m, Pow((base * base) % n, h), p, n);
    assert m * p == result * (base * p);
  }

  /** With an even exponent, squaring `base` halves the exponent. */
  lemma EvenStep(result: int, base: int, k: nat, n: int)
    requires n > 0 && k % 2 == 0
    ensures (result * Pow((base * base) % n, k / 2)) % n == (result * Pow(base, k)) % n
  {
    var h := k / 2;
    PowSquare(base, h);
    PowMod(base * base, h, n);
    MulModCongruent(result, result, Pow((base * base) % n, h), Pow(base * base, h), n);
  }

  /**
   * `a^b mod n` by square-and-multiply. A positive exponent yields the residue
   * of the power, in [0, n); a zero or negative exponent skips the loop and
   * yields the literal 1, even when n == 1. The loop runs once per binary
   * digit of b (`steps`).
   */
  method ModularExponentiation(a: int, b: int, n: int) returns (result: int, ghost steps: nat)
    requires n > 0
    ensures b <= 0 ==> result == 1
    ensures b > 0 ==> 0 <= result < n && result == Pow(a, b) % n
    ensures result == ModPow(a, b, n)
    ensures steps == BitLength(b)
  {
    result := 1;
    var base := a % n;
    var k := b;
    steps := 0;
    PowMod(a, if b > 0 then b else 0, n);
    while k > 0
      invariant 0 <= base < n
      invariant b <= 0 ==> k == b && result == 1
      invariant b > 0 ==> 0 <= k <= b
      invariant b > 0 ==> (result * Pow(base, k)) % n == Pow(a, b) % n
      invariant result == 1 || 0 <= result < n
      invariant b > 0 && k == 0 ==> 0 <= result < n
      invariant steps + BitLength(k) == BitLength(b)
      decreases k
    {
      if k % 2 == 1 {
        OddStep(result, base, k, n);
        result := (result * base) % n;
      } else {
        EvenStep(result, base, k, n);
      }
      base := (base * base) % n;
      k := k / 2;
      steps := steps + 1;
    }
    if b > 0 {
      assert Pow(base, k) == 1;
      ModOfResidue(result, n);
    }
  }
}
