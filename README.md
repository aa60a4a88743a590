# Divisibility sequence tester: a verified model

The program studies second-order linear recurrences
x_n = P·x_{n-1} − Q·x_{n-2} with initial terms x_0, x_1. It lists the
terms x_0 .. x_n and then runs two empirical checks over that finite prefix:

- the **divisibility** test: m | idx implies x_m | x_idx. Terms equal to
  zero are skipped as divisors.
- the **strong divisibility** test: gcd(x_m, x_k) = |x_gcd(m,k)| for every
  pair 1 ≤ m < k ≤ n.

Each check returns `(True, None)` or `(False, (m, idx))`. The pair is the
first failing one in the search order: m ascending, then the second index
ascending.

The model has four modules:

- `Numbers` (numbers.dfy): absolute value, divisibility (`Divides`, where
  zero divides only zero), and `Gcd`. `Gcd` is Euclid's algorithm on
  absolute values, so it behaves like Python's `math.gcd`: the result is
  non-negative and gcd(0, 0) = 0. Lemmas prove it is the greatest common
  divisor.
- `Recurrence` (recurrence.dfy): the specification function `Term` and the
  iterative generator `GenerateSequence`. The generator appends one term per
  loop round, as the source does.
- `Divisibility` (divisibility.dfy): the failure predicates, the two checker
  methods with their nested loops and early returns, and lemmas about them.
- `Wrappers` (wrappers.dfy): `Option`, standing for Python's `Optional`.

The source's `seq[idx] % seq[m] != 0` is modelled with Dafny's `%`. Dafny's
`%` is Euclidean and Python's floors, but for a nonzero divisor both give 0
exactly when the divisor divides the dividend. The divisor is never zero,
because zero terms are skipped first.

In the source, the generator accepts any integer n and returns `[]` for every
negative n. The model does the same. It does not require n ≥ −1.

For the Lucas numbers (P = 1, Q = −1, x_0 = 2, x_1 = 1), the first
divisibility failure is at the pair (2, 4): x_2 = 3 does not divide x_4 = 7.
Nothing fails for m = 1, because x_1 = 1 divides every term.
`LucasFirstFailure` proves this for every prefix of at least five terms.

Skipping zero divisors makes the divisibility test weaker than the
mathematical property. In mathematics a zero term x_m requires x_idx = 0.
`ZeroSkipIsWeaker` proves that the test accepts everything the mathematical
property accepts. It also shows that the test accepts [1, 0, 1], which the
mathematical property rejects. The model keeps the source's behaviour.

## Model

| member | source | states |
|---|---|---|
| Recurrence.GenerateSequence | main.py:15-25 | n < 0 gives []; n = 0 gives [x0]; otherwise the result has n+1 terms with s[0] = x0 and s[1] = x1. Every later term is P·s[i-1] − Q·s[i-2], and every term equals the specification `Term(i)` |
| Recurrence.RecurrenceDeterminesTerms | main.py:22-25 | any list that starts with x0, x1 and follows the recurrence is, term by term, the recurrence's own sequence; so the generator's result depends only on its arguments |
| Divisibility.CheckDivisibility | main.py:28-52 | ok holds exactly when the counterexample is None, and exactly when no pair fails (1 ≤ m, k ≥ 2, m·k ≤ n, s[m] ≠ 0, s[m] does not divide s[m·k]). A list of length ≤ 1 passes. A returned (m, idx) has idx = m·k and is the first failing pair in the (m, k) order |
| Divisibility.DivisibleByIndices | main.py:29-47 | passing the divisibility test is equivalent to the docstring's "m divides idx implies s[m] divides s[idx]" for all 1 ≤ m < idx ≤ n with s[m] ≠ 0 |
| Divisibility.ZeroSkipIsWeaker | main.py:39-40 | skipping zero divisors accepts every list that the mathematical property (0 divides only 0) accepts. It also accepts [1, 0, 1], which that property rejects |
| Divisibility.LucasFirstFailure | main.py:38-50 | for the Lucas numbers with at least five terms, (2, 4) is the first failing pair |
| Divisibility.CheckStrongDivisibility | main.py:55-76 | ok holds exactly when the counterexample is None, and exactly when gcd(s[m], s[k]) = abs(s[gcd(m, k)]) for every 1 ≤ m < k ≤ n. A list of length ≤ 1 passes. A returned (m, k) fails the equality and is the first failing pair in the (m, k) order |
| Divisibility.NegativeGcdTermPasses | main.py:70 | the comparison takes the absolute value of s[gcd(m, k)]: [0, 1, −1, 2, −3] passes the strong test although gcd(s[2], s[4]) = −s[2] |
| Divisibility.StrongImpliesDivisible | main.py:63-76 | a list that passes the strong test also passes the divisibility test |
| Numbers.Abs | main.py:70 | the result is non-negative and equals x or −x |
| Numbers.GcdNat | main.py:67-68 | Euclid's algorithm: the result is 0 only for (0, 0), and it is at most each positive argument |
| Numbers.Gcd | main.py:67-68 | `math.gcd` on integers: non-negative, 0 exactly for (0, 0), and between 1 and abs(a) when a ≠ 0 (the same for b). So for 1 ≤ m < k the index gcd(m, k) lies in 1..m and `seq[g]` is in bounds |
| Numbers.GcdIsGreatestCommonDivisor | main.py:67-68 | Gcd(a, b) divides a and b, and every common divisor of a and b divides Gcd(a, b) |
| Numbers.GcdNatDivides | main.py:67-68 | Euclid's result divides both of its arguments |
| Numbers.GcdNatGreatest | main.py:67-68 | every common divisor of the arguments divides Euclid's result |
| Numbers.GcdOfMultiple | main.py:67 | gcd(m, idx) = m when idx is a larger multiple of m |
| Numbers.MulDivBound | main.py:42-45 | for m ≥ 1, k ≤ n // m exactly when m·k ≤ n. So the inner loop reaches every multiple up to n, and idx never exceeds n |
| Numbers.DividesSign | main.py:47 | divisibility ignores the signs of the divisor and the dividend |

## Left out

- `analyze_sequence` (main.py:79-129): console output of the terms, the discriminant and the verdicts.
- `main` (main.py:132-162): interactive `input()` prompting and the `ValueError` message for non-integer input.
- The `verbose` flag of both checkers and its printing branches (main.py:48-49, 71-73). They only print; the model has no `verbose` parameter.
- `math.gcd`: modelled by `Numbers.Gcd`, a Euclidean gcd with the same results, not by the library.
- The `if idx > n: break` at main.py:44-45 cannot fire, because k ≤ n // m already gives m·k ≤ n (`Numbers.MulDivBound`). The model leaves the branch out and proves idx ≤ n instead.
- Parameter scans over ranges, the resulting reports and report files are not part of this model.
- The Fibonacci test vector (both checks pass for indices 0..20) is not proved. Evaluating that many gcds of concrete values is beyond the verifier's budget. The strong test's behaviour on concrete data is shown instead by `NegativeGcdTermPasses`, and the divisibility test's by `LucasFirstFailure`.
