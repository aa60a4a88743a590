/** The two decision procedures of main.py: check_divisibility, which asks
    whether m | idx implies x_m | x_idx over a finite prefix, and
    check_strong_divisibility, which asks whether
    gcd(x_m, x_k) == |x_gcd(m, k)| for every pair of indices of the prefix.
    Each returns (true, None) or (false, Some(pair)) with the first failing
    pair in its search order (m ascending, then k ascending). */
module Divisibility {
  import opened Numbers
  import opened Wrappers

  // ---------------------------------------------------------------------
  // Divisibility

  /** The pair (m, m * k) fails the divisibility test: 1 <= m, k >= 2,
      m * k is an index of s, the term s[m] is not zero (zero terms are
      skipped as divisors) and s[m] does not divide s[m * k]. */
  predicate DivFailure(s: seq<int>, m: int, k: int) {
    1 <= m < |s| && 2 <= k && m * k < |s| && s[m] != 0 && s[m * k] % s[m] != 0
  }

  /** No pair of s fails the divisibility test. */
  ghost predicate Divisible(s: seq<int>) {
    forall m, k :: !DivFailure(s, m, k)
  }

  /** (m1, k1) comes before (m2, k2) in the search order: m ascending, then k ascending. */
  predicate Before(m1: int, k1: int, m2: int, k2: int) {
    m1 < m2 || (m1 == m2 && k1 < k2)
  }

  /** (m, m * k) is the first failing pair of s in the search order. */
  ghost predicate FirstDivFailure(s: seq<int>, m: int, k: int) {
    DivFailure(s, m, k) && forall m', k' :: Before(m', k', m, k) ==> !DivFailure(s, m', k')
  }

  /** check_divisibility: (true, None) when s passes, otherwise (false, Some((m, idx)))
      for the first failing pair, idx being the multiple m * k of m. */
  method CheckDivisibility(s: seq<int>) returns (ok: bool, counterexample: Option<(int, int)>)
    ensures ok <==> counterexample == None
    ensures ok <==> Divisible(s)
    ensures |s| <= 1 ==> ok
    ensures counterexample.Some? ==>
      exists k :: counterexample.value.1 == counterexample.value.0 * k && FirstDivFailure(s, counterexample.value.0, k)
  {
    var n := |s| - 1;
    var m := 1;
    while m <= n
      invariant 1 <= m
      invariant forall m', k' :: m' < m ==> !DivFailure(s, m', k')
    {
      if s[m] != 0 {
        var k := 2;
        while k <= n / m
          invariant 2 <= k
          invariant forall k' :: k' < k ==> !DivFailure(s, m, k')
        {
          MulDivBound(m, n, k);
          var idx := m * k;
          if s[idx] % s[m] != 0 {
            assert FirstDivFailure(s, m, k);
            return false, Some((m, idx));
          }
          k := k + 1;
        }
        forall k' | k <= k'
          ensures !DivFailure(s, m, k')
        {
          MulDivBound(m, n, k');
        }
      }
      m := m + 1;
    }
    return true, None;
  }

  /** Divisible is the property main.py's docstring states, "m | idx implies
      s[m] | s[idx]", over the indices 1 <= m < idx of s whose term s[m] is
      not zero. */
  lemma DivisibleByIndices(s: seq<int>)
    ensures Divisible(s) <==>
      forall m, idx :: 1 <= m < idx < |s| && idx % m == 0 && s[m] != 0 ==> Divides(s[m], s[idx])
  {
    if Divisible(s) {
      forall m, idx | 1 <= m < idx < |s| && idx % m == 0 && s[m] != 0
        ensures Divides(s[m], s[idx])
      {
        var k := idx / m;
        LargerMultiple(m, idx);
        assert !DivFailure(s, m, k);
      }
    }
    if forall m, idx :: 1 <= m < idx < |s| && idx % m == 0 && s[m] != 0 ==> Divides(s[m], s[idx]) {
      forall m, k | 1 <= m < |s| && 2 <= k && m * k < |s| && s[m] != 0
        ensures !DivFailure(s, m, k)
      {
        var idx := m * k;
        DividesMultiple(m, k);
        MulNonNegative(m, k - 2);
        assert idx - 2 * m == m * (k - 2);
        assert Divides(s[m], s[idx]);
      }
    }
  }

  /** The divisibility property with zero treated as mathematics treats it:
      0 divides only 0. */
  ghost predicate DivisibleIncludingZeros(s: seq<int>) {
    forall m, idx :: 1 <= m < idx < |s| && idx % m == 0 ==> Divides(s[m], s[idx])
  }

  /** Skipping zero terms as divisors makes the test weaker than the
      mathematical property: it accepts every sequence that property accepts,
      and also [1, 0, 1] (P = 1, Q = -1, x0 = 1, x1 = 0), where x_1 = 0 does
      not divide x_2 = 1. */
  lemma ZeroSkipIsWeaker(s: seq<int>)
    ensures DivisibleIncludingZeros(s) ==> Divisible(s)
    ensures Divisible([1, 0, 1]) && !DivisibleIncludingZeros([1, 0, 1])
  {
    DivisibleByIndices(s);
    var t := [1, 0, 1];
    forall m, k
      ensures !DivFailure(t, m, k)
    {
      if 1 <= m < |t| && 2 <= k && m * k < |t| {
        MulNonNegative(m, k - 2);
        assert m * k - 2 * m == m * (k - 2);
      }
    }
    assert !Divides(t[1], t[2]);
  }

  /** For the Lucas numbers (P = 1, Q = -1, x0 = 2, x1 = 1) with at least
      five terms, the first failing pair is (2, 4): x_1 = 1 divides every
      term, and x_2 = 3 does not divide x_4 = 7. */
  lemma LucasFirstFailure(s: seq<int>)
    requires |s| >= 5
    requires s[0] == 2 && s[1] == 1
    requires forall i :: 2 <= i < |s| ==> s[i] == s[i - 1] + s[i - 2]
    ensures FirstDivFailure(s, 2, 2)
  {
    assert s[2] == 3 && s[3] == 4 && s[4] == 7;
    forall m', k' | Before(m', k', 2, 2)
      ensures !DivFailure(s, m', k')
    {
      if m' == 1 && 2 <= k' && k' < |s| {
        assert s[m' * k'] % 1 == 0;
      }
    }
  }

  // ---------------------------------------------------------------------
  // Strong divisibility

  /** The pair (m, k), 1 <= m < k, fails the strong divisibility test:
      gcd(s[m], s[k]) differs from |s[gcd(m, k)]|. The index gcd(m, k)
      lies in 1 .. m, so the access is in bounds. */
  predicate StrongFailure(s: seq<int>, m: int, k: int) {
    1 <= m < k < |s| && Gcd(s[m], s[k]) != Abs(s[Gcd(m, k)])
  }

  /** No pair of s fails the strong divisibility test. */
  ghost predicate StronglyDivisible(s: seq<int>) {
    forall m, k :: !StrongFailure(s, m, k)
  }

  /** (m, k) is the first failing pair of s in the search order. */
  ghost predicate FirstStrongFailure(s: seq<int>, m: int, k: int) {
    StrongFailure(s, m, k) && forall m', k' :: Before(m', k', m, k) ==> !StrongFailure(s, m', k')
  }

  /** check_strong_divisibility: (true, None) when s passes, otherwise
      (false, Some((m, k))) for the first failing pair. */
  method CheckStrongDivisibility(s: seq<int>) returns (ok: bool, counterexample: Option<(int, int)>)
    ensures ok <==> counterexample == None
    ensures ok <==> StronglyDivisible(s)
    ensures |s| <= 1 ==> ok
    ensures counterexample.Some? ==> FirstStrongFailure(s, counterexample.value.0, counterexample.value.1)
  {
    var n := |s| - 1;
    var m := 1;
    while m <= n
      invariant 1 <= m
      invariant forall m', k' :: m' < m ==> !StrongFailure(s, m', k')
    {
      var k := m + 1;
      while k <= n
        invariant m + 1 <= k
        invariant forall k' :: k' < k ==> !StrongFailure(s, m, k')
      {
        var g := Gcd(m, k);
        var gcdTerms := Gcd(s[m], s[k]);
        if gcdTerms != Abs(s[g]) {
          assert FirstStrongFailure(s, m, k);
          return false, Some((m, k));
        }
        k := k + 1;
      }
      m := m + 1;
    }
    return true, None;
  }

  /** The comparison is with the absolute value of s[gcd(m, k)]: the terms
      0, 1, -1, 2, -3 (P = -1, Q = -1, x0 = 0, x1 = 1) pass the strong test,
      although for (2, 4) the gcd 1 of s[2] and s[4] is -s[2]. */
  lemma NegativeGcdTermPasses()
    ensures var s := [0, 1, -1, 2, -3];
      StronglyDivisible(s) && Gcd(s[2], s[4]) == -s[2]
  {
    var s := [0, 1, -1, 2, -3];
    forall m, k | 1 <= m < k < |s|
      ensures !StrongFailure(s, m, k)
    {
      assert Gcd(s[m], s[k]) == 1 by {
        assert Abs(s[m]) == 1 || Abs(s[k]) == 1 || (m == 3 && k == 4);
      }
      assert Abs(s[Gcd(m, k)]) == 1 by {
        assert Gcd(m, k) == 1 || Gcd(m, k) == 2;
      }
    }
  }

  /** Over a finite prefix, passing the strong test implies passing the
      divisibility test: for m | idx, gcd(m, idx) == m, so |s[m]| is the gcd
      of s[m] and s[idx] and divides s[idx]. */
  lemma StrongImpliesDivisible(s: seq<int>)
    requires StronglyDivisible(s)
    ensures Divisible(s)
  {
    forall m, k | 1 <= m < |s| && 2 <= k && m * k < |s| && s[m] != 0
      ensures !DivFailure(s, m, k)
    {
      var idx := m * k;
      DividesMultiple(m, k);
      MulNonNegative(m, k - 2);
      assert idx - 2 * m == m * (k - 2);
      GcdOfMultiple(m, idx);
      assert !StrongFailure(s, m, idx);
      GcdIsGreatestCommonDivisor(s[m], s[idx]);
      DividesSign(s[m], s[idx]);
    }
  }
}
