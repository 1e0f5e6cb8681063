// Integer powers, residues modulo a positive modulus, and the facts about
// them that both exponentiation loops rely on.

module Power {

  /** x raised to the k-th power, over unbounded integers. */
  ghost function Pow(x: int, k: nat): int
    decreases k
  {
    if k == 0 then 1 else x * Pow(x, k - 1)
  }

  /**
   * The value both scripts compute for `a^b mod n`: a positive exponent gives
   * the residue of the power; a zero or negative exponent gives the literal 1
   * (not 1 mod n), because neither loop body runs.
   */
  ghost function ModPow(a: int, b: int, n: int): (r: int)
    requires n > 0
    ensures (b > 0 || n > 1) <==> 0 <= r < n
  {
    if b <= 0 then 1 else Pow(a, b) % n
  }

  /** Number of binary digits of a positive k; 0 when k <= 0. */
  function BitLength(k: int): (len: nat)
    ensures k > 0 <==> len > 0
    decreases if k > 0 then k else 0
  {
    if k <= 0 then 0 else 1 + BitLength(k / 2)
  }

  /** A positive k has exactly BitLength(k) binary digits: 2^(len-1) <= k < 2^len. */
  lemma {:induction false} BitLengthBounds(k: int)
    requires k > 0
    ensures Pow(2, BitLength(k) - 1) <= k < Pow(2, BitLength(k))
    decreases k
  {
    if k > 1 {
      BitLengthBounds(k / 2);
    }
  }

  /** Conversely, a k with 2^(m-1) <= k < 2^m has exactly m binary digits. */
  lemma {:induction false} BitLengthUnique(k: int, m: nat)
    requires m > 0 && Pow(2, m - 1) <= k < Pow(2, m)
    ensures BitLength(k) == m
    decreases m
  {
    if m > 1 {
      assert Pow(2, m - 1) == 2 * Pow(2, m - 2);
      BitLengthUnique(k / 2, m - 1);
    }
  }

  /** Adding a multiple of the modulus leaves the residue unchanged. */
  lemma ModAddMultiple(m: int, r: int, n: int)
    requires n > 0
    ensures (m * n + r) % n == r % n
  {
    var z := m * n + r;
    var d := z / n - m - r / n;
    assert d * n == r % n - z % n;
  }

  /** A value already in [0, n) is its own residue. */
  lemma ModOfResidue(x: int, n: int)
    requires 0 <= x < n
    ensures x % n == x
  {
  }

  /** Reducing the left factor before multiplying leaves the residue unchanged. */
  lemma MulModLeft(x: int, y: int, n: int)
    requires n > 0
    ensures (x * y) % n == ((x % n) * y) % n
  {
    var q, r := x / n, x % n;
    assert x == q * n + r;
    assert x * y == (q * y) * n + r * y by {
      assert x * y == (q * n + r) * y;
    }
    ModAddMultiple(q * y, r * y, n);
  }

  /** The residue of a product depends only on the residues of its factors. */
  lemma MulMod(x: int, y: int, n: int)
    requires n > 0
    ensures (x * y) % n == ((x % n) * (y % n)) % n
  {
    MulModLeft(x, y, n);
    MulModLeft(y, x % n, n);
    assert (x % n) * y == y * (x % n);
    assert (y % n) * (x % n) == (x % n) * (y % n);
  }

  /** Congruent factors give congruent products. */
  lemma MulModCongruent(x: int, x': int, y: int, y': int, n: int)
    requires n > 0 && x % n == x' % n && y % n == y' % n
    ensures (x * y) % n == (x' * y') % n
  {
    MulMod(x, y, n);
    MulMod(x', y', n);
  }

  /** Powers multiply by adding exponents. */
  lemma {:induction false} PowAdd(x: int, i: nat, j: nat)
    ensures Pow(x, i + j) == Pow(x, i) * Pow(x, j)
    decreases i
  {
    if i > 0 {
      PowAdd(x, i - 1, j);
    }
  }

  /** A power of a power multiplies the exponents. */
  lemma {:induction false} PowMul(x: int, m: nat, k: nat)
    ensures Pow(x, m * k) == Pow(Pow(x, m), k)
    decreases k
  {
    if k > 0 {
      PowMul(x, m, k - 1);
      assert m * k == m + m * (k - 1);
      PowAdd(x, m, m * (k - 1));
    }
  }

  /** Squaring the base halves an even exponent: x^(2k) == (x*x)^k. */
  lemma {:induction false} PowSquare(x: int, k: nat)
    ensures Pow(x, 2 * k) == Pow(x * x, k)
  {
    PowMul(x, 2, k);
    assert Pow(x, 2) == x * x;
  }

  /** The residue of a power depends only on the residue of the base. */
  lemma {:induction false} PowMod(x: int, k: nat, n: int)
    requires n > 0
    ensures Pow(x % n, k) % n == Pow(x, k) % n
    decreases k
  {
    if k > 0 {
      var r := x % n;
      PowMod(x, k - 1, n);
      ModOfResidue(r, n);
      MulModCongruent(r, x, Pow(r, k - 1), Pow(x, k - 1), n);
    }
  }

  /** Every power of 1 is 1. */
  lemma {:induction false} PowOne(k: nat)
    ensures Pow(1, k) == 1
    decreases k
  {
    if k > 0 {
      PowOne(k - 1);
    }
  }
}
