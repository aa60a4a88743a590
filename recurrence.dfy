/** The second-order linear recurrence x_n = P * x_{n-1} - Q * x_{n-2} and
    the generator that lists its terms x_0 .. x_n (main.py, generate_sequence). */
module Recurrence {

  /** The i-th term of the recurrence with parameters p, q and initial
      terms x0, x1: the specification the generator is proved against. */
  function Term(p: int, q: int, x0: int, x1: int, i: nat): int {
    if i == 0 then x0
    else if i == 1 then x1
    else p * Term(p, q, x0, x1, i - 1) - q * Term(p, q, x0, x1, i - 2)
  }

  /** The terms of indices 0 through n, built iteratively from x0 and x1; an
      empty list when n is negative and [x0] alone when n is zero. */
  method GenerateSequence(p: int, q: int, x0: int, x1: int, n: int) returns (s: seq<int>)
    ensures n < 0 ==> s == []
    ensures n == 0 ==> s == [x0]
    ensures n >= 0 ==> |s| == n + 1 && s[0] == x0
    ensures n >= 1 ==> s[1] == x1
    ensures forall i :: 2 <= i < |s| ==> s[i] == p * s[i - 1] - q * s[i - 2]
    ensures forall i :: 0 <= i < |s| ==> s[i] == Term(p, q, x0, x1, i)
  {
    if n < 0 {
      return [];
    }
    if n == 0 {
      return [x0];
    }
    s := [x0, x1];
    var i := 2;
    while i <= n
      invariant 2 <= i <= n + 1
      invariant |s| == i
      invariant forall j :: 0 <= j < |s| ==> s[j] == Term(p, q, x0, x1, j)
    {
      s := s + [p * s[i - 1] - q * s[i - 2]];
      i := i + 1;
    }
  }

  /** Two lists that both follow the recurrence from the same x0 and x1 and
      have the same length are equal: the generator's result is determined
      by its arguments. */
  lemma {:induction false} RecurrenceDeterminesTerms(p: int, q: int, x0: int, x1: int, s: seq<int>, i: nat)
    requires 0 < |s| && s[0] == x0
    requires |s| > 1 ==> s[1] == x1
    requires forall j :: 2 <= j < |s| ==> s[j] == p * s[j - 1] - q * s[j - 2]
    requires i < |s|
    ensures s[i] == Term(p, q, x0, x1, i)
  {
    if i >= 2 {
      RecurrenceDeterminesTerms(p, q, x0, x1, s, i - 1);
      RecurrenceDeterminesTerms(p, q, x0, x1, s, i - 2);
    }
  }
}
