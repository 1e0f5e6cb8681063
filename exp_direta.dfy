// Direct modular exponentiation: multiply by the base and reduce, once per
// unit of the exponent.

module DirectExponentiation {
  import opened Power

  /**
   * `a^b mod n` by b repeated multiply-and-reduce steps. The base is never
   * reduced beforehand, yet a positive exponent still yields the residue of
   * the power, in [0, n); a zero or negative exponent runs no iteration and
   * yields the literal 1. The loop runs max(b, 0) times (`steps`).
   */
  method DirectModularExponentiation(a: int, b: int, n: int) returns (result: int, ghost steps: nat)
    requires n > 0
    ensures b <= 0 ==> result == 1
    ensures b > 0 ==> 0 <= result < n && result == Pow(a, b) % n
    ensures result == ModPow(a, b, n)
    ensures steps == if b > 0 then b else 0
  {
    result := 1;
    var i := 0;
    steps := 0;
    while i < b
      invariant 0 <= i <= (if b > 0 then b else 0)
      invariant i == 0 ==> result == 1
      invariant i > 0 ==> result == Pow(a, i) % n
      invariant steps == i
    {
      MulModLeft(Pow(a, i), a, n);
      assert Pow(a, i + 1) == Pow(a, i) * a;
      result := (result * a) % n;
      i := i + 1;
      steps := steps + 1;
    }
  }
}
