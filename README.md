# Modular exponentiation, binary and direct

A Dafny model of the two scripts that compute `a^b mod n`:

- `exp_binaria.py`, `modular_exponentiation`: square-and-multiply. The base is first reduced modulo `n`; then, while the exponent is positive, an odd exponent multiplies the result by the base (reduced), the base is squared (reduced) and the exponent is halved with floor division.
- `exp_direta.py`, `direct_modular_exponentiation`: starting from 1, multiply by `a` and reduce modulo `n`, `b` times.

Both are modelled as Dafny methods with `while` loops over unbounded integers (Python integers never overflow), each proved against the ghost specification `Power.ModPow(a, b, n)`: the literal `1` when `b <= 0`, and `Pow(a, b) % n` when `b > 0`. Dafny's `%` and Python's `%` agree for a positive modulus, including for a negative base, and Python's `b // 2` is Dafny's `b / 2` for `b > 0`. The loop counts are exposed as ghost out-parameters (`steps`): one iteration per binary digit of `b` for the binary version, `b` iterations (none when `b <= 0`) for the direct one.

Files:

- `power.dfy` (module `Power`): `Pow`, `ModPow`, `BitLength`, and the arithmetic facts about residues and powers.
- `exp_binaria.dfy` (module `BinaryExponentiation`): the square-and-multiply loop and its two step lemmas.
- `exp_direta.dfy` (module `DirectExponentiation`): the repeated multiply-and-reduce loop.
- `comparison.dfy` (module `Comparison`): agreement of the two methods, multiplicativity in the exponent, and the value of the scripts' sample call.

Two consequences of the code that the model makes explicit:

- A zero or negative exponent returns the literal `1`, even when `n == 1` (where `1 % n` would be 0). So `ModPow(a, b1 + b2, n) == (ModPow(a, b1, n) * ModPow(a, b2, n)) % n` holds for all `b1, b2 >= 0` except `b1 == b2 == 0` with `n == 1` (`Comparison.ModPowMultiplicative`, `Comparison.ZeroExponentIsNotReduced`), and `ModPow(a, b, n)` lies in `[0, n)` exactly when `b > 0` or `n > 1` (`Power.ModPow`).
- The sample call `3^102458749 mod 7` yields 3, because `3^6` is 1 modulo 7 and 102458749 is 1 modulo 6 (`Comparison.SampleCallValue`).

## Model

| member | source | states |
|---|---|---|
| `BinaryExponentiation.ModularExponentiation` | exp_binaria.py:3-21 | for n > 0: b <= 0 gives exactly 1 (also for n == 1); b > 0 gives Pow(a, b) % n, which lies in [0, n); the result is ModPow(a, b, n); the loop runs BitLength(b) times. Its loop invariant keeps the base in [0, n) and result * base^k congruent to a^b modulo n |
| `BinaryExponentiation.OddStep` | exp_binaria.py:16-19 | when the remaining exponent k is odd, multiplying result by base, squaring base and halving k keeps result * base^k unchanged modulo n |
| `BinaryExponentiation.EvenStep` | exp_binaria.py:18-19 | when k is even, squaring base modulo n and halving k keeps result * base^k unchanged modulo n |
| `DirectExponentiation.DirectModularExponentiation` | exp_direta.py:3-15 | for n > 0: b <= 0 gives exactly 1; b > 0 gives Pow(a, b) % n in [0, n) although a is never reduced first; the result is ModPow(a, b, n); the loop runs max(b, 0) times, and after i >= 1 iterations result == Pow(a, i) % n |
| `Comparison.BinaryAgreesWithDirect` | exp_binaria.py:3-21 | for every a, every b (negative included) and every n > 0, square-and-multiply returns the same value as the direct loop of exp_direta.py:3-15, and both equal ModPow(a, b, n) |
| `Comparison.ModPowMultiplicative` | exp_binaria.py:12-21 | for b1, b2 >= 0 and n > 0, the result for b1 + b2 is the product of the results for b1 and b2 reduced modulo n, unless b1 == b2 == 0 and n == 1 |
| `Comparison.ZeroExponentIsNotReduced` | exp_binaria.py:12-15 | with n == 1 a zero exponent yields 1, not 0, so the product rule fails for b1 == b2 == 0 |
| `Comparison.PowThreeModSeven` | exp_binaria.py:26-29 | every exponent b > 0 with b % 6 == 1 gives 3^b mod 7 == 3 |
| `Comparison.SampleCallValue` | exp_binaria.py:26-29 | the sample call 3^102458749 mod 7 yields 3, and the square-and-multiply loop runs 27 times on it |
| `Power.ModPow` | exp_direta.py:12-15 | the specified value lies in [0, n) if and only if b > 0 or n > 1: the unreduced literal 1 for b <= 0 is out of range only when n == 1 |
| `Power.PowMod` | exp_binaria.py:13 | reducing the base modulo n first does not change the residue of any power, negative bases included |
| `Power.PowSquare` | exp_binaria.py:18 | squaring the base halves an even exponent: x^(2k) == (x*x)^k |
| `Power.MulModLeft` | exp_direta.py:14 | reducing the running result before the next multiplication does not change the residue of the product |
| `Power.BitLengthBounds` | exp_binaria.py:15-19 | a positive exponent b satisfies 2^(BitLength(b)-1) <= b < 2^BitLength(b), so the binary loop runs once per binary digit of b |
| `Power.BitLengthUnique` | exp_binaria.py:15-19 | conversely, 2^(m-1) <= b < 2^m implies BitLength(b) == m |

## Left out

- The timing and printing code around the sample call (exp_binaria.py:23-33, exp_direta.py:17-27): wall-clock time, floating-point elapsed seconds and console output. Only the value of the sample call is modelled.
- The recorded execution times in comments (exp_binaria.py:35-36, exp_direta.py:29-30): hardware measurements, not behaviour.
- Negative moduli: Python's `%` then yields values in `(n, 0]` while Dafny's `%` is Euclidean; both methods require `n > 0`.
- The `ZeroDivisionError` raised for `n == 0` is a precondition (`n > 0`) rather than a modelled exception.
- `DirectExponentiation.DirectModularExponentiation`: requires `n > 0` although with `n == 0` and `b <= 0` the source never reaches `%` and returns 1; that input is excluded rather than modelled.
- Negative exponents are not given a meaning through modular inverses: as in the code, they yield 1.
- Fixed-width overflow: Python integers are unbounded, so all arithmetic is on Dafny `int`.
