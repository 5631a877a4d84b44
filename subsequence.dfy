/**
 * Subsequence kernels over strings (Shawe-Taylor and Cristianini 2004,
 * pp. 353-369), as subsequence_kernels.py writes them: the recursive
 * all-subsequences and fixed-length counts, their dynamic-programming
 * tables, and the gap-weighted kernel in recursive and table form.
 *
 * Every recursive call of the source works on prefixes s[:i] and t[:j] of
 * its two arguments, so the recurrences below are stated on the original
 * strings and two prefix lengths i and j; the lemmas ...Prefix show that
 * this is the source's recursion on the sliced strings.
 */
module SubsequenceKernels {
  import opened Exceptions

  // ---------------------------------------------------------------------------
  // all_subsequences_kernel
  // ---------------------------------------------------------------------------

  /**
   * all_subsequences_kernel(s[:i], t[:j]): 1 when either prefix is empty,
   * otherwise the count for s[:i-1] and t[:j] plus, for every k < j with
   * t[k] == s[i-1], the count for s[:i-1] and t[:k].
   */
  function AllSub(s: string, t: string, i: nat, j: nat): (r: nat)
    requires i <= |s| && j <= |t|
    ensures r >= 1
    decreases i, 1, j
  {
    if i == 0 || j == 0 then 1 else AllSub(s, t, i - 1, j) + Matches(s, t, i - 1, j)
  }

  /** Sum of AllSub(s, t, i, k) over the k < n with t[k] == s[i]. */
  function Matches(s: string, t: string, i: nat, n: nat): nat
    requires i < |s| && n <= |t|
    decreases i + 1, 0, n
  {
    if n == 0 then 0
    else Matches(s, t, i, n - 1) + (if t[n - 1] == s[i] then AllSub(s, t, i, n - 1) else 0)
  }

  /** all_subsequences_kernel(s, t). */
  function AllSubsequencesKernel(s: string, t: string): (r: nat)
  {
    AllSub(s, t, |s|, |t|)
  }

  /** Every string has the empty subsequence, so the kernel is never 0, and it is 1 on an empty input. */
  lemma AllSubsequencesKernelBase(s: string, t: string)
    ensures AllSubsequencesKernel(s, t) >= 1
    ensures |s| == 0 || |t| == 0 ==> AllSubsequencesKernel(s, t) == 1
  {
  }

  /** AllSub reads s and t only below i and j. */
  lemma {:induction false} AllSubCongruent(s: string, t: string, s': string, t': string, i: nat, j: nat)
    requires i <= |s| && i <= |s'| && j <= |t| && j <= |t'|
    requires s[..i] == s'[..i] && t[..j] == t'[..j]
    ensures AllSub(s, t, i, j) == AllSub(s', t', i, j)
    decreases i, 1, j
  {
    if i > 0 && j > 0 {
      assert s[..i - 1] == s[..i][..i - 1] && s'[..i - 1] == s'[..i][..i - 1];
      AllSubCongruent(s, t, s', t', i - 1, j);
      MatchesCongruent(s, t, s', t', i - 1, j);
    }
  }

  lemma {:induction false} MatchesCongruent(s: string, t: string, s': string, t': string, i: nat, n: nat)
    requires i < |s| && i < |s'| && n <= |t| && n <= |t'|
    requires s[..i + 1] == s'[..i + 1] && t[..n] == t'[..n]
    ensures Matches(s, t, i, n) == Matches(s', t', i, n)
    decreases i + 1, 0, n
  {
    if n > 0 {
      assert t[..n - 1] == t[..n][..n - 1] && t'[..n - 1] == t'[..n][..n - 1];
      assert s[..i] == s[..i + 1][..i] && s'[..i] == s'[..i + 1][..i];
      assert s[i] == s[..i + 1][i] && s'[i] == s'[..i + 1][i];
      assert t[n - 1] == t[..n][n - 1] && t'[n - 1] == t'[..n][n - 1];
      MatchesCongruent(s, t, s', t', i, n - 1);
      AllSubCongruent(s, t, s', t', i, n - 1);
    }
  }

  /** AllSub on prefix lengths is the kernel of the sliced strings. */
  lemma AllSubPrefix(s: string, t: string, i: nat, j: nat)
    requires i <= |s| && j <= |t|
    ensures AllSub(s, t, i, j) == AllSubsequencesKernel(s[..i], t[..j])
  {
    assert s[..i][..i] == s[..i] && t[..j][..j] == t[..j];
    AllSubCongruent(s, t, s[..i], t[..j], i, j);
  }

  // ---------------------------------------------------------------------------
  // fixed_length_subsequences_kernel_naive
  // ---------------------------------------------------------------------------

  /**
   * fixed_length_subsequences_kernel_naive(s[:i], t[:j], p): 1 for p = 0,
   * 0 for p > 0 when a prefix is empty, otherwise the count for s[:i-1]
   * plus, for every k < j with t[k] == s[i-1], the count for s[:i-1], t[:k]
   * and p - 1.
   */
  function Fixed(s: string, t: string, i: nat, j: nat, p: nat): nat
    requires i <= |s| && j <= |t|
    decreases i, 1, j
  {
    if p == 0 then 1
    else if i == 0 || j == 0 then 0
    else Fixed(s, t, i - 1, j, p) + FixedMatches(s, t, i - 1, j, p - 1)
  }

  /** Sum of Fixed(s, t, i, k, q) over the k < n with t[k] == s[i]. */
  function FixedMatches(s: string, t: string, i: nat, n: nat, q: nat): nat
    requires i < |s| && n <= |t|
    decreases i + 1, 0, n
  {
    if n == 0 then 0
    else FixedMatches(s, t, i, n - 1, q) + (if t[n - 1] == s[i] then Fixed(s, t, i, n - 1, q) else 0)
  }

  /** fixed_length_subsequences_kernel_naive(s, t, p). */
  function FixedLengthSubsequencesKernelNaive(s: string, t: string, p: nat): nat
  {
    Fixed(s, t, |s|, |t|, p)
  }

  /** One common subsequence of length 0; none of positive length when an input is empty. */
  lemma FixedLengthNaiveBase(s: string, t: string, p: nat)
    ensures p == 0 ==> FixedLengthSubsequencesKernelNaive(s, t, p) == 1
    ensures p > 0 && (|s| == 0 || |t| == 0) ==> FixedLengthSubsequencesKernelNaive(s, t, p) == 0
  {
  }

  /** A subsequence of s[:i] is at most i long. */
  lemma {:induction false} FixedTooLong(s: string, t: string, i: nat, j: nat, p: nat)
    requires i <= |s| && j <= |t| && p > i
    ensures Fixed(s, t, i, j, p) == 0
    decreases i, 1, j
  {
    if i > 0 && j > 0 {
      FixedTooLong(s, t, i - 1, j, p);
      FixedMatchesTooLong(s, t, i - 1, j, p - 1);
    }
  }

  lemma {:induction false} FixedMatchesTooLong(s: string, t: string, i: nat, n: nat, q: nat)
    requires i < |s| && n <= |t| && q > i
    ensures FixedMatches(s, t, i, n, q) == 0
    decreases i + 1, 0, n
  {
    if n > 0 {
      FixedMatchesTooLong(s, t, i, n - 1, q);
      FixedTooLong(s, t, i, n - 1, q);
    }
  }

  // ---------------------------------------------------------------------------
  // Summing the fixed-length counts over all lengths gives the all-subsequences count
  // ---------------------------------------------------------------------------

  /** Fixed(s, t, i, j, p) summed over p = 0 .. P. */
  function FixedUpTo(s: string, t: string, i: nat, j: nat, P: nat): nat
    requires i <= |s| && j <= |t|
  {
    (if P == 0 then 0 else FixedUpTo(s, t, i, j, P - 1)) + Fixed(s, t, i, j, P)
  }

  /** FixedMatches(s, t, i, n, q) summed over q = 0 .. Q. */
  function FixedMatchesUpTo(s: string, t: string, i: nat, n: nat, Q: nat): nat
    requires i < |s| && n <= |t|
  {
    (if Q == 0 then 0 else FixedMatchesUpTo(s, t, i, n, Q - 1)) + FixedMatches(s, t, i, n, Q)
  }

  lemma {:induction false} FixedUpToEmpty(s: string, t: string, i: nat, j: nat, P: nat)
    requires i <= |s| && j <= |t| && (i == 0 || j == 0)
    ensures FixedUpTo(s, t, i, j, P) == 1
  {
    if P > 0 {
      FixedUpToEmpty(s, t, i, j, P - 1);
    }
  }

  /** Splitting the sum over lengths along the recurrence of Fixed. */
  lemma {:induction false} FixedUpToStep(s: string, t: string, i: nat, j: nat, P: nat)
    requires 0 < i <= |s| && 0 < j <= |t| && P > 0
    ensures FixedUpTo(s, t, i, j, P) == FixedUpTo(s, t, i - 1, j, P) + FixedMatchesUpTo(s, t, i - 1, j, P - 1)
  {
    if P > 1 {
      FixedUpToStep(s, t, i, j, P - 1);
    }
  }

  lemma {:induction false} FixedMatchesUpToStep(s: string, t: string, i: nat, n: nat, Q: nat)
    requires i < |s| && 0 < n <= |t|
    ensures FixedMatchesUpTo(s, t, i, n, Q)
         == FixedMatchesUpTo(s, t, i, n - 1, Q) + (if t[n - 1] == s[i] then FixedUpTo(s, t, i, n - 1, Q) else 0)
  {
    if Q > 0 {
      FixedMatchesUpToStep(s, t, i, n, Q - 1);
    }
  }

  lemma {:induction false} FixedMatchesUpToZero(s: string, t: string, i: nat, Q: nat)
    requires i < |s|
    ensures FixedMatchesUpTo(s, t, i, 0, Q) == 0
  {
    if Q > 0 {
      FixedMatchesUpToZero(s, t, i, Q - 1);
    }
  }

  /**
   * Every common subsequence has one length between 0 and i, so the
   * fixed-length counts for p = 0 .. P (P >= i) add up to the
   * all-subsequences count.
   */
  lemma {:induction false} FixedSumIsAllSub(s: string, t: string, i: nat, j: nat, P: nat)
    requires i <= |s| && j <= |t| && P >= i
    ensures FixedUpTo(s, t, i, j, P) == AllSub(s, t, i, j)
    decreases i, 1, j
  {
    if i == 0 || j == 0 {
      FixedUpToEmpty(s, t, i, j, P);
    } else {
      FixedUpToStep(s, t, i, j, P);
      FixedSumIsAllSub(s, t, i - 1, j, P);
      FixedMatchesSumIsMatches(s, t, i - 1, j, P - 1);
    }
  }

  lemma {:induction false} FixedMatchesSumIsMatches(s: string, t: string, i: nat, n: nat, Q: nat)
    requires i < |s| && n <= |t| && Q >= i
    ensures FixedMatchesUpTo(s, t, i, n, Q) == Matches(s, t, i, n)
    decreases i + 1, 0, n
  {
    if n == 0 {
      FixedMatchesUpToZero(s, t, i, Q);
    } else {
      FixedMatchesUpToStep(s, t, i, n, Q);
      FixedMatchesSumIsMatches(s, t, i, n - 1, Q);
      FixedSumIsAllSub(s, t, i, n - 1, Q);
    }
  }

  /** The kernels' own statement of it: sum over p of the naive fixed-length kernel. */
  lemma FixedLengthNaiveSumsToAllSubsequences(s: string, t: string)
    ensures FixedUpTo(s, t, |s|, |t|, |s|) == AllSubsequencesKernel(s, t)
  {
    FixedSumIsAllSub(s, t, |s|, |t|, |s|);
  }

  // ---------------------------------------------------------------------------
  // Worked values from the test suite
  // ---------------------------------------------------------------------------

  /** all_subsequences_kernel("bar", "bar") == 8. */
  lemma AllSubsequencesKernelBar(s: string, t: string)
    requires s == "bar" && t == "bar"
    ensures AllSubsequencesKernel(s, t) == 8
  {
    assert |s| == 3 && |t| == 3;
    assert Matches(s, t, 0, 1) == 1;
    assert Matches(s, t, 0, 2) == 1;
    assert Matches(s, t, 0, 3) == 1;
    assert AllSub(s, t, 1, 1) == 2;
    assert AllSub(s, t, 1, 2) == 2;
    assert AllSub(s, t, 1, 3) == 2;
    assert Matches(s, t, 1, 1) == 0;
    assert Matches(s, t, 1, 2) == 2;
    assert Matches(s, t, 1, 3) == 2;
    assert AllSub(s, t, 2, 1) == 2;
    assert AllSub(s, t, 2, 2) == 4;
    assert AllSub(s, t, 2, 3) == 4;
    assert Matches(s, t, 2, 1) == 0;
    assert Matches(s, t, 2, 2) == 0;
    assert Matches(s, t, 2, 3) == 4;
    assert AllSub(s, t, 3, 1) == 2;
    assert AllSub(s, t, 3, 2) == 4;
    assert AllSub(s, t, 3, 3) == 8;
  }

  /** all_subsequences_kernel("bar", "car") == 4. */
  lemma AllSubsequencesKernelBarCar(s: string, t: string)
    requires s == "bar" && t == "car"
    ensures AllSubsequencesKernel(s, t) == 4
  {
    assert |s| == 3 && |t| == 3;
    assert Matches(s, t, 0, 1) == 0;
    assert Matches(s, t, 0, 2) == 0;
    assert Matches(s, t, 0, 3) == 0;
    assert AllSub(s, t, 1, 1) == 1;
    assert AllSub(s, t, 1, 2) == 1;
    assert AllSub(s, t, 1, 3) == 1;
    assert Matches(s, t, 1, 1) == 0;
    assert Matches(s, t, 1, 2) == 1;
    assert Matches(s, t, 1, 3) == 1;
    assert AllSub(s, t, 2, 1) == 1;
    assert AllSub(s, t, 2, 2) == 2;
    assert AllSub(s, t, 2, 3) == 2;
    assert Matches(s, t, 2, 1) == 0;
    assert Matches(s, t, 2, 2) == 0;
    assert Matches(s, t, 2, 3) == 2;
    assert AllSub(s, t, 3, 1) == 1;
    assert AllSub(s, t, 3, 2) == 2;
    assert AllSub(s, t, 3, 3) == 4;
  }

  /** all_subsequences_kernel("gatta", "cata") == 14. */
  lemma AllSubsequencesKernelGattaCata(s: string, t: string)
    requires s == "gatta" && t == "cata"
    ensures AllSubsequencesKernel(s, t) == 14
  {
    assert |s| == 5 && |t| == 4;
    assert Matches(s, t, 0, 1) == 0;
    assert Matches(s, t, 0, 2) == 0;
    assert Matches(s, t, 0, 3) == 0;
    assert Matches(s, t, 0, 4) == 0;
    assert AllSub(s, t, 1, 1) == 1;
    assert AllSub(s, t, 1, 2) == 1;
    assert AllSub(s, t, 1, 3) == 1;
    assert AllSub(s, t, 1, 4) == 1;
    assert Matches(s, t, 1, 1) == 0;
    assert Matches(s, t, 1, 2) == 1;
    assert Matches(s, t, 1, 3) == 1;
    assert Matches(s, t, 1, 4) == 2;
    assert AllSub(s, t, 2, 1) == 1;
    assert AllSub(s, t, 2, 2) == 2;
    assert AllSub(s, t, 2, 3) == 2;
    assert AllSub(s, t, 2, 4) == 3;
    assert Matches(s, t, 2, 1) == 0;
    assert Matches(s, t, 2, 2) == 0;
    assert Matches(s, t, 2, 3) == 2;
    assert Matches(s, t, 2, 4) == 2;
    assert AllSub(s, t, 3, 1) == 1;
    assert AllSub(s, t, 3, 2) == 2;
    assert AllSub(s, t, 3, 3) == 4;
    assert AllSub(s, t, 3, 4) == 5;
    assert Matches(s, t, 3, 1) == 0;
    assert Matches(s, t, 3, 2) == 0;
    assert Matches(s, t, 3, 3) == 2;
    assert Matches(s, t, 3, 4) == 2;
    assert AllSub(s, t, 4, 1) == 1;
    assert AllSub(s, t, 4, 2) == 2;
    assert AllSub(s, t, 4, 3) == 6;
    assert AllSub(s, t, 4, 4) == 7;
    assert Matches(s, t, 4, 1) == 0;
    assert Matches(s, t, 4, 2) == 1;
    assert Matches(s, t, 4, 3) == 1;
    assert Matches(s, t, 4, 4) == 7;
    assert AllSub(s, t, 5, 1) == 1;
    assert AllSub(s, t, 5, 2) == 3;
    assert AllSub(s, t, 5, 3) == 7;
    assert AllSub(s, t, 5, 4) == 14;
  }

  /** The table of common subsequences of length 1 of the prefixes of "gatta" and "cata". */
  lemma FixedGattaCataLevel1(s: string, t: string)
    requires s == "gatta" && t == "cata"
    ensures Fixed(s, t, 1, 1, 1) == 0
    ensures Fixed(s, t, 1, 2, 1) == 0
    ensures Fixed(s, t, 1, 3, 1) == 0
    ensures Fixed(s, t, 1, 4, 1) == 0
    ensures Fixed(s, t, 2, 1, 1) == 0
    ensures Fixed(s, t, 2, 2, 1) == 1
    ensures Fixed(s, t, 2, 3, 1) == 1
    ensures Fixed(s, t, 2, 4, 1) == 2
    ensures Fixed(s, t, 3, 1, 1) == 0
    ensures Fixed(s, t, 3, 2, 1) == 1
    ensures Fixed(s, t, 3, 3, 1) == 2
    ensures Fixed(s, t, 3, 4, 1) == 3
    ensures Fixed(s, t, 4, 1, 1) == 0
    ensures Fixed(s, t, 4, 2, 1) == 1
    ensures Fixed(s, t, 4, 3, 1) == 3
    ensures Fixed(s, t, 4, 4, 1) == 4
    ensures Fixed(s, t, 5, 1, 1) == 0
    ensures Fixed(s, t, 5, 2, 1) == 2
    ensures Fixed(s, t, 5, 3, 1) == 4
    ensures Fixed(s, t, 5, 4, 1) == 6
  {
    assert |s| == 5 && |t| == 4;
    assert FixedMatches(s, t, 0, 1, 0) == 0;
    assert FixedMatches(s, t, 0, 2, 0) == 0;
    assert FixedMatches(s, t, 0, 3, 0) == 0;
    assert FixedMatches(s, t, 0, 4, 0) == 0;
    assert Fixed(s, t, 1, 1, 1) == 0;
    assert Fixed(s, t, 1, 2, 1) == 0;
    assert Fixed(s, t, 1, 3, 1) == 0;
    assert Fixed(s, t, 1, 4, 1) == 0;
    assert FixedMatches(s, t, 1, 1, 0) == 0;
    assert FixedMatches(s, t, 1, 2, 0) == 1;
    assert FixedMatches(s, t, 1, 3, 0) == 1;
    assert FixedMatches(s, t, 1, 4, 0) == 2;
    assert Fixed(s, t, 2, 1, 1) == 0;
    assert Fixed(s, t, 2, 2, 1) == 1;
    assert Fixed(s, t, 2, 3, 1) == 1;
    assert Fixed(s, t, 2, 4, 1) == 2;
    assert FixedMatches(s, t, 2, 1, 0) == 0;
    assert FixedMatches(s, t, 2, 2, 0) == 0;
    assert FixedMatches(s, t, 2, 3, 0) == 1;
    assert FixedMatches(s, t, 2, 4, 0) == 1;
    assert Fixed(s, t, 3, 1, 1) == 0;
    assert Fixed(s, t, 3, 2, 1) == 1;
    assert Fixed(s, t, 3, 3, 1) == 2;
    assert Fixed(s, t, 3, 4, 1) == 3;
    assert FixedMatches(s, t, 3, 1, 0) == 0;
    assert FixedMatches(s, t, 3, 2, 0) == 0;
    assert FixedMatches(s, t, 3, 3, 0) == 1;
    assert FixedMatches(s, t, 3, 4, 0) == 1;
    assert Fixed(s, t, 4, 1, 1) == 0;
    assert Fixed(s, t, 4, 2, 1) == 1;
    assert Fixed(s, t, 4, 3, 1) == 3;
    assert Fixed(s, t, 4, 4, 1) == 4;
    assert FixedMatches(s, t, 4, 1, 0) == 0;
    assert FixedMatches(s, t, 4, 2, 0) == 1;
    assert FixedMatches(s, t, 4, 3, 0) == 1;
    assert FixedMatches(s, t, 4, 4, 0) == 2;
    assert Fixed(s, t, 5, 1, 1) == 0;
    assert Fixed(s, t, 5, 2, 1) == 2;
    assert Fixed(s, t, 5, 3, 1) == 4;
    assert Fixed(s, t, 5, 4, 1) == 6;
  }

  /** The table of common subsequences of length 2 of the prefixes of "gatta" and "cata". */
  lemma FixedGattaCataLevel2(s: string, t: string)
    requires s == "gatta" && t == "cata"
    ensures Fixed(s, t, 1, 1, 2) == 0
    ensures Fixed(s, t, 1, 2, 2) == 0
    ensures Fixed(s, t, 1, 3, 2) == 0
    ensures Fixed(s, t, 1, 4, 2) == 0
    ensures Fixed(s, t, 2, 1, 2) == 0
    ensures Fixed(s, t, 2, 2, 2) == 0
    ensures Fixed(s, t, 2, 3, 2) == 0
    ensures Fixed(s, t, 2, 4, 2) == 0
    ensures Fixed(s, t, 3, 1, 2) == 0
    ensures Fixed(s, t, 3, 2, 2) == 0
    ensures Fixed(s, t, 3, 3, 2) == 1
    ensures Fixed(s, t, 3, 4, 2) == 1
    ensures Fixed(s, t, 4, 1, 2) == 0
    ensures Fixed(s, t, 4, 2, 2) == 0
    ensures Fixed(s, t, 4, 3, 2) == 2
    ensures Fixed(s, t, 4, 4, 2) == 2
    ensures Fixed(s, t, 5, 1, 2) == 0
    ensures Fixed(s, t, 5, 2, 2) == 0
    ensures Fixed(s, t, 5, 3, 2) == 2
    ensures Fixed(s, t, 5, 4, 2) == 5
  {
    assert |s| == 5 && |t| == 4;
    FixedGattaCataLevel1(s, t);
    assert FixedMatches(s, t, 0, 1, 1) == 0;
    assert FixedMatches(s, t, 0, 2, 1) == 0;
    assert FixedMatches(s, t, 0, 3, 1) == 0;
    assert FixedMatches(s, t, 0, 4, 1) == 0;
    assert Fixed(s, t, 1, 1, 2) == 0;
    assert Fixed(s, t, 1, 2, 2) == 0;
    assert Fixed(s, t, 1, 3, 2) == 0;
    assert Fixed(s, t, 1, 4, 2) == 0;
    assert FixedMatches(s, t, 1, 1, 1) == 0;
    assert FixedMatches(s, t, 1, 2, 1) == 0;
    assert FixedMatches(s, t, 1, 3, 1) == 0;
    assert FixedMatches(s, t, 1, 4, 1) == 0;
    assert Fixed(s, t, 2, 1, 2) == 0;
    assert Fixed(s, t, 2, 2, 2) == 0;
    assert Fixed(s, t, 2, 3, 2) == 0;
    assert Fixed(s, t, 2, 4, 2) == 0;
    assert FixedMatches(s, t, 2, 1, 1) == 0;
    assert FixedMatches(s, t, 2, 2, 1) == 0;
    assert FixedMatches(s, t, 2, 3, 1) == 1;
    assert FixedMatches(s, t, 2, 4, 1) == 1;
    assert Fixed(s, t, 3, 1, 2) == 0;
    assert Fixed(s, t, 3, 2, 2) == 0;
    assert Fixed(s, t, 3, 3, 2) == 1;
    assert Fixed(s, t, 3, 4, 2) == 1;
    assert FixedMatches(s, t, 3, 1, 1) == 0;
    assert FixedMatches(s, t, 3, 2, 1) == 0;
    assert FixedMatches(s, t, 3, 3, 1) == 1;
    assert FixedMatches(s, t, 3, 4, 1) == 1;
    assert Fixed(s, t, 4, 1, 2) == 0;
    assert Fixed(s, t, 4, 2, 2) == 0;
    assert Fixed(s, t, 4, 3, 2) == 2;
    assert Fixed(s, t, 4, 4, 2) == 2;
    assert FixedMatches(s, t, 4, 1, 1) == 0;
    assert FixedMatches(s, t, 4, 2, 1) == 0;
    assert FixedMatches(s, t, 4, 3, 1) == 0;
    assert FixedMatches(s, t, 4, 4, 1) == 3;
    assert Fixed(s, t, 5, 1, 2) == 0;
    assert Fixed(s, t, 5, 2, 2) == 0;
    assert Fixed(s, t, 5, 3, 2) == 2;
    assert Fixed(s, t, 5, 4, 2) == 5;
  }

  /** The table of common subsequences of length 3 of the prefixes of "gatta" and "cata". */
  lemma FixedGattaCataLevel3(s: string, t: string)
    requires s == "gatta" && t == "cata"
    ensures Fixed(s, t, 1, 1, 3) == 0
    ensures Fixed(s, t, 1, 2, 3) == 0
    ensures Fixed(s, t, 1, 3, 3) == 0
    ensures Fixed(s, t, 1, 4, 3) == 0
    ensures Fixed(s, t, 2, 1, 3) == 0
    ensures Fixed(s, t, 2, 2, 3) == 0
    ensures Fixed(s, t, 2, 3, 3) == 0
    ensures Fixed(s, t, 2, 4, 3) == 0
    ensures Fixed(s, t, 3, 1, 3) == 0
    ensures Fixed(s, t, 3, 2, 3) == 0
    ensures Fixed(s, t, 3, 3, 3) == 0
    ensures Fixed(s, t, 3, 4, 3) == 0
    ensures Fixed(s, t, 4, 1, 3) == 0
    ensures Fixed(s, t, 4, 2, 3) == 0
    ensures Fixed(s, t, 4, 3, 3) == 0
    ensures Fixed(s, t, 4, 4, 3) == 0
    ensures Fixed(s, t, 5, 1, 3) == 0
    ensures Fixed(s, t, 5, 2, 3) == 0
    ensures Fixed(s, t, 5, 3, 3) == 0
    ensures Fixed(s, t, 5, 4, 3) == 2
  {
    assert |s| == 5 && |t| == 4;
    FixedGattaCataLevel2(s, t);
    assert FixedMatches(s, t, 0, 1, 2) == 0;
    assert FixedMatches(s, t, 0, 2, 2) == 0;
    assert FixedMatches(s, t, 0, 3, 2) == 0;
    assert FixedMatches(s, t, 0, 4, 2) == 0;
    assert Fixed(s, t, 1, 1, 3) == 0;
    assert Fixed(s, t, 1, 2, 3) == 0;
    assert Fixed(s, t, 1, 3, 3) == 0;
    assert Fixed(s, t, 1, 4, 3) == 0;
    assert FixedMatches(s, t, 1, 1, 2) == 0;
    assert FixedMatches(s, t, 1, 2, 2) == 0;
    assert FixedMatches(s, t, 1, 3, 2) == 0;
    assert FixedMatches(s, t, 1, 4, 2) == 0;
    assert Fixed(s, t, 2, 1, 3) == 0;
    assert Fixed(s, t, 2, 2, 3) == 0;
    assert Fixed(s, t, 2, 3, 3) == 0;
    assert Fixed(s, t, 2, 4, 3) == 0;
    assert FixedMatches(s, t, 2, 1, 2) == 0;
    assert FixedMatches(s, t, 2, 2, 2) == 0;
    assert FixedMatches(s, t, 2, 3, 2) == 0;
    assert FixedMatches(s, t, 2, 4, 2) == 0;
    assert Fixed(s, t, 3, 1, 3) == 0;
    assert Fixed(s, t, 3, 2, 3) == 0;
    assert Fixed(s, t, 3, 3, 3) == 0;
    assert Fixed(s, t, 3, 4, 3) == 0;
    assert FixedMatches(s, t, 3, 1, 2) == 0;
    assert FixedMatches(s, t, 3, 2, 2) == 0;
    assert FixedMatches(s, t, 3, 3, 2) == 0;
    assert FixedMatches(s, t, 3, 4, 2) == 0;
    assert Fixed(s, t, 4, 1, 3) == 0;
    assert Fixed(s, t, 4, 2, 3) == 0;
    assert Fixed(s, t, 4, 3, 3) == 0;
    assert Fixed(s, t, 4, 4, 3) == 0;
    assert FixedMatches(s, t, 4, 1, 2) == 0;
    assert FixedMatches(s, t, 4, 2, 2) == 0;
    assert FixedMatches(s, t, 4, 3, 2) == 0;
    assert FixedMatches(s, t, 4, 4, 2) == 2;
    assert Fixed(s, t, 5, 1, 3) == 0;
    assert Fixed(s, t, 5, 2, 3) == 0;
    assert Fixed(s, t, 5, 3, 3) == 0;
    assert Fixed(s, t, 5, 4, 3) == 2;
  }

  /**
   * fixed_length_subsequences_kernel_naive("gatta", "cata", p) for p = 1, 2, 3
   * is 6, 5 and 2; with the one empty subsequence they add up to the 14
   * subsequences the two strings share.
   */
  lemma FixedLengthNaiveGattaCata(s: string, t: string)
    requires s == "gatta" && t == "cata"
    ensures FixedLengthSubsequencesKernelNaive(s, t, 1) == 6
    ensures FixedLengthSubsequencesKernelNaive(s, t, 2) == 5
    ensures FixedLengthSubsequencesKernelNaive(s, t, 3) == 2
    ensures FixedUpTo(s, t, |s|, |t|, 3) == AllSubsequencesKernel(s, t) == 14
  {
    assert |s| == 5 && |t| == 4;
    FixedGattaCataLevel1(s, t);
    FixedGattaCataLevel2(s, t);
    FixedGattaCataLevel3(s, t);
    assert FixedUpTo(s, t, 5, 4, 0) == 1;
    assert FixedUpTo(s, t, 5, 4, 1) == 7;
    assert FixedUpTo(s, t, 5, 4, 2) == 12;
    assert FixedUpTo(s, t, 5, 4, 3) == 14;
    AllSubsequencesKernelGattaCata(s, t);
  }

  // ---------------------------------------------------------------------------
  // all_noncontiguous_subsequences_kernel
  // ---------------------------------------------------------------------------

  /**
   * dp[i][j] of all_noncontiguous_subsequences_kernel. The table starts as
   * zeros and only dp[0][j] for j >= 1 is set to 1, so column 0 stays 0.
   */
  function NcDp(s: string, t: string, i: nat, j: nat): nat
    requires i <= |s| && j <= |t|
    decreases i, 1, j
  {
    if j == 0 then 0 else if i == 0 then 1 else NcDp(s, t, i - 1, j) + NcPre(s, t, i, j)
  }

  /** pre[j] while row i is filled: dp[i-1][k-1] summed over the k <= j with t_k == s_i (1-based). */
  function NcPre(s: string, t: string, i: nat, j: nat): nat
    requires 0 < i <= |s| && j <= |t|
    decreases i, 0, j
  {
    if j == 0 then 0
    else NcPre(s, t, i, j - 1) + (if t[j - 1] == s[i - 1] then NcDp(s, t, i - 1, j - 1) else 0)
  }

  method AllNoncontiguousSubsequencesKernel(s: string, t: string) returns (r: nat)
    ensures r == NcDp(s, t, |s|, |t|)
  {
    var dp := new int[|s| + 1, |t| + 1]((_, _) => 0);
    for j := 1 to |t| + 1
      invariant forall b :: 0 <= b <= |t| ==> dp[0, b] == if 0 < b < j then 1 else 0
      invariant forall a :: 0 <= a <= |s| ==> dp[a, 0] == 0
    {
      dp[0, j] := 1;
    }
    var pre := new int[|t| + 1](_ => 0);
    for i := 1 to |s| + 1
      invariant forall a, b :: a == i - 1 && 0 <= b <= |t| ==> dp[a, b] == NcDp(s, t, a, b)
      invariant forall a :: 0 <= a <= |s| ==> dp[a, 0] == 0
    {
      var last := 0;
      pre[0] := 0;
      for j := 1 to |t| + 1
        invariant 0 <= last < j
        invariant pre[last] == NcPre(s, t, i, j - 1)
        invariant forall a, b :: a == i - 1 && 0 <= b <= |t| ==> dp[a, b] == NcDp(s, t, a, b)
        invariant forall b :: 0 <= b < j ==> dp[i, b] == NcDp(s, t, i, b)
        invariant forall a :: 0 <= a <= |s| ==> dp[a, 0] == 0
      {
        pre[j] := pre[last];
        if t[j - 1] == s[i - 1] {
          pre[j] := pre[last] + dp[i - 1, j - 1];
          last := j;
        }
        dp[i, j] := dp[i - 1, j] + pre[j];
      }
    }
    return dp[|s|, |t|];
  }

  /** Adding a row never lowers an entry of the table. */
  lemma NcDpMonotone(s: string, t: string, i: nat, j: nat)
    requires 0 < i <= |s| && j <= |t|
    ensures NcDp(s, t, i - 1, j) <= NcDp(s, t, i, j)
  {
  }

  /** The table with column 0 left at 0 never exceeds the all-subsequences count. */
  lemma {:induction false} NcDpBelowAllSub(s: string, t: string, i: nat, j: nat)
    requires i <= |s| && j <= |t|
    ensures NcDp(s, t, i, j) <= AllSub(s, t, i, j)
    decreases i, 1, j
  {
    if i > 0 && j > 0 {
      NcDpBelowAllSub(s, t, i - 1, j);
      NcPreBelowMatches(s, t, i, j);
    }
  }

  lemma {:induction false} NcPreBelowMatches(s: string, t: string, i: nat, j: nat)
    requires 0 < i <= |s| && j <= |t|
    ensures NcPre(s, t, i, j) <= Matches(s, t, i - 1, j)
    decreases i, 0, j
  {
    if j > 0 {
      NcPreBelowMatches(s, t, i, j - 1);
      NcDpBelowAllSub(s, t, i - 1, j - 1);
    }
  }

  /**
   * Two inputs where the table and the recursive count disagree: an empty t
   * gives 0 instead of 1, and ("a", "a") gives 1 instead of 2.
   */
  lemma NcDpDiverges(s: string)
    ensures NcDp(s, "", |s|, 0) == 0 && AllSub(s, "", |s|, 0) == 1
    ensures NcDp("a", "a", 1, 1) == 1 && AllSub("a", "a", 1, 1) == 2
  {
  }

  /**
   * The same loops over a table that starts as ones, so that dp[i][0] == 1
   * counts the empty subsequence: the table is then the recursion of
   * all_subsequences_kernel.
   */
  method AllSubsequencesKernelDp(s: string, t: string) returns (r: nat)
    ensures r == AllSubsequencesKernel(s, t)
  {
    var dp := new int[|s| + 1, |t| + 1]((_, _) => 1);
    var pre := new int[|t| + 1](_ => 0);
    for i := 1 to |s| + 1
      invariant forall a, b :: a == i - 1 && 0 <= b <= |t| ==> dp[a, b] == AllSub(s, t, a, b)
      invariant forall a :: 0 <= a <= |s| ==> dp[a, 0] == 1
    {
      var last := 0;
      pre[0] := 0;
      for j := 1 to |t| + 1
        invariant 0 <= last < j
        invariant pre[last] == Matches(s, t, i - 1, j - 1)
        invariant forall a, b :: a == i - 1 && 0 <= b <= |t| ==> dp[a, b] == AllSub(s, t, a, b)
        invariant forall b :: 0 <= b < j ==> dp[i, b] == AllSub(s, t, i, b)
        invariant forall a :: 0 <= a <= |s| ==> dp[a, 0] == 1
      {
        pre[j] := pre[last];
        if t[j - 1] == s[i - 1] {
          pre[j] := pre[last] + dp[i - 1, j - 1];
          last := j;
        }
        dp[i, j] := dp[i - 1, j] + pre[j];
      }
    }
    return dp[|s|, |t|];
  }

  // ---------------------------------------------------------------------------
  // fixed_length_subsequences_kernel
  // ---------------------------------------------------------------------------

  /** len(s[:k]) for a Python slice bound k, which counts from the end when negative. */
  function PrefixLength(n: nat, k: int): (r: nat)
    ensures r <= n
  {
    if k >= 0 then (if k <= n then k else n) else if n + k > 0 then n + k else 0
  }

  /**
   * The table fixed_length_subsequences_kernel fills. `dp_recursive` is the
   * same array as `dp` and `last` stays 0, so pre[j] is dp[i-1][j-1] when
   * t_j == s_i and 0 otherwise: dp[i][j] = dp[i-1][j] + [t_j == s_i] dp[i-1][j-1],
   * with row 0 and column 0 at 1 from numpy.ones.
   */
  function FlDp(s: string, t: string, i: nat, j: nat): nat
    requires i <= |s| && j <= |t|
  {
    if i == 0 || j == 0 then 1
    else FlDp(s, t, i - 1, j) + (if t[j - 1] == s[i - 1] then FlDp(s, t, i - 1, j - 1) else 0)
  }

  /** The value fixed_length_subsequences_kernel(s, t, p) returns: 1 for p = 0, else the last cell. */
  function FixedLengthDp(s: string, t: string, p: nat): nat
  {
    if p == 0 then 1 else FlDp(s, t, |s|, |t|)
  }

  method FixedLengthSubsequencesKernel(s: string, t: string, p: nat) returns (r: nat)
    ensures r == FixedLengthDp(s, t, p)
  {
    var dp := new int[|s| + 1, |t| + 1]((_, _) => 1);
    var pre := new int[|t| + 1](_ => 0);
    ghost var done: nat := 0;  // the last row the previous round filled
    for l := 1 to p + 1
      invariant done <= |s|
      invariant l > 1 ==> done == PrefixLength(|s|, |s| - p + l - 1)
      invariant l == 1 ==> dp[|s|, |t|] == 1
      invariant forall a, b :: 0 <= a == done <= |s| && 0 <= b <= |t| ==> dp[a, b] == FlDp(s, t, a, b)
      invariant forall a :: 0 <= a <= |s| ==> dp[a, 0] == 1
      invariant forall b :: 0 <= b <= |t| ==> dp[0, b] == 1
    {
      var dpRecursive := dp;
      for j := 1 to |t| + 1
        invariant forall a, b :: 0 <= a == done <= |s| && 0 <= b <= |t| ==> dp[a, b] == FlDp(s, t, a, b)
        invariant forall a :: 0 <= a <= |s| ==> dp[a, 0] == 1
        invariant forall b :: 0 <= b <= |t| ==> dp[0, b] == 1
      {
        dp[0, j] := 1;
      }
      var rows := PrefixLength(|s|, |s| - p + l);
      for i := 1 to rows + 1
        invariant forall a, b :: a == i - 1 && 0 <= b <= |t| ==> dp[a, b] == FlDp(s, t, a, b)
        invariant forall a :: 0 <= a <= |s| ==> dp[a, 0] == 1
        invariant forall b :: 0 <= b <= |t| ==> dp[0, b] == 1
      {
        var last := 0;
        pre[0] := 0;
        for j := 1 to |t| + 1
          invariant last == 0 && pre[0] == 0
          invariant forall a, b :: a == i - 1 && 0 <= b <= |t| ==> dp[a, b] == FlDp(s, t, a, b)
          invariant forall b :: 0 <= b < j ==> dp[i, b] == FlDp(s, t, i, b)
          invariant forall a :: 0 <= a <= |s| ==> dp[a, 0] == 1
          invariant forall b :: 0 <= b <= |t| ==> dp[0, b] == 1
        {
          pre[j] := pre[last];
          if t[j - 1] == s[i - 1] {
            pre[j] := pre[last] + dpRecursive[i - 1, j - 1];
          }
          dp[i, j] := dp[i - 1, j] + pre[j];
        }
      }
      done := rows;
    }
    return dp[|s|, |t|];
  }

  /** Every entry of the table is at least 1. */
  lemma {:induction false} FlDpPositive(s: string, t: string, i: nat, j: nat)
    requires i <= |s| && j <= |t|
    ensures FlDp(s, t, i, j) >= 1
  {
    if i > 0 && j > 0 {
      FlDpPositive(s, t, i - 1, j);
    }
  }

  /** For every p >= 1 the table returns the same number: p only bounds the rows of early rounds. */
  lemma FixedLengthDpIgnoresP(s: string, t: string, p: nat, q: nat)
    requires p >= 1 && q >= 1
    ensures FixedLengthDp(s, t, p) == FixedLengthDp(s, t, q)
  {
  }

  /** For p = 0 the table and the naive recursion agree. */
  lemma FixedLengthDpAtZero(s: string, t: string)
    ensures FixedLengthDp(s, t, 0) == FixedLengthSubsequencesKernelNaive(s, t, 0)
  {
  }

  /** ("ga", "ca", 1): the table gives 2, the naive recursion 1 ('a' is the one common symbol). */
  lemma FixedLengthDpDiverges(s: string, t: string)
    requires s == "ga" && t == "ca"
    ensures FixedLengthDp(s, t, 1) == 2
    ensures FixedLengthSubsequencesKernelNaive(s, t, 1) == 1
  {
    assert FlDp(s, t, 1, 1) == 1 && FlDp(s, t, 1, 2) == 1;
    assert FixedMatches(s, t, 0, 1, 0) == 0 && FixedMatches(s, t, 0, 2, 0) == 0;
    assert FixedMatches(s, t, 1, 1, 0) == 0 && FixedMatches(s, t, 1, 2, 0) == 1;
    assert Fixed(s, t, 1, 2, 1) == 0;
  }

  // ---------------------------------------------------------------------------
  // gap_weighted_subsequences_kernel_recursive
  // ---------------------------------------------------------------------------

  function Pow(x: real, n: nat): real
  {
    if n == 0 then 1.0 else Times(x, Pow(x, n - 1))
  }

  /** Real multiplication, the product of the kernel weight with a table entry. */
  function Times(x: real, y: real): real
  {
    x * y
  }

  /** The source's `tail`: the last symbol of s[:i] as a string, or '' when the prefix is empty. */
  function Tail(s: string, i: nat): (r: string)
    requires i <= |s|
    ensures |r| == if i == 0 then 0 else 1
  {
    if i == 0 then "" else [s[i - 1]]
  }

  /**
   * gap_weighted_subsequences_kernel_recursive(s[:i], t[:j], p, lam) for p >= 1:
   * for p = 1, lam^2 when the last symbols agree (two empty prefixes agree);
   * otherwise 0 when they differ, and when they agree the sum over
   * 1 <= a <= i, 1 <= b <= j of lam^(2 + i - a + j - b) times the value for
   * s[:a], t[:b] and p - 1.
   */
  function GapRec(s: string, t: string, i: nat, j: nat, p: nat, lam: real): real
    requires i <= |s| && j <= |t| && p >= 1
    decreases p, 2, 0
  {
    if p == 1 then (if Tail(s, i) == Tail(t, j) then Times(lam, lam) else 0.0)
    else if Tail(s, i) == Tail(t, j) then GapRows(s, t, i, j, p, lam, i)
    else 0.0
  }

  /** The terms of the double loop over the rows a = 1 .. m. */
  function GapRows(s: string, t: string, i: nat, j: nat, p: nat, lam: real, m: nat): real
    requires i <= |s| && j <= |t| && p >= 2 && m <= i
    decreases p, 1, m
  {
    if m == 0 then 0.0 else GapRows(s, t, i, j, p, lam, m - 1) + GapCols(s, t, i, j, p, lam, m, j)
  }

  /** The terms of row a over the columns b = 1 .. n. */
  function GapCols(s: string, t: string, i: nat, j: nat, p: nat, lam: real, a: nat, n: nat): real
    requires i <= |s| && j <= |t| && p >= 2 && 1 <= a <= i && n <= j
    decreases p, 0, n
  {
    if n == 0 then 0.0
    else GapCols(s, t, i, j, p, lam, a, n - 1) + GapTerm(s, t, i, j, p, lam, a, n)
  }

  function GapTerm(s: string, t: string, i: nat, j: nat, p: nat, lam: real, a: nat, b: nat): real
    requires i <= |s| && j <= |t| && p >= 2 && 1 <= a <= i && 1 <= b <= j
    decreases p, 0, 0
  {
    Times(Pow(lam, 2 + (i - a) + (j - b)), GapRec(s, t, a, b, p - 1, lam))
  }

  /**
   * gap_weighted_subsequences_kernel_recursive(s, t, p, lam). For p < 1 the
   * recursion never reaches p == 1: it ends with 0 when the last symbols
   * differ or s is empty, and recurses forever (Python's RecursionError)
   * when both strings are non-empty and end in the same symbol.
   */
  function GapWeightedSubsequencesKernelRecursive(s: string, t: string, p: int, lam: real): (r: Result<real>)
    ensures r.Raise? <==> p < 1 && |s| > 0 && |t| > 0 && s[|s| - 1] == t[|t| - 1]
    ensures r.Raise? ==> r.exc == RecursionError
    ensures p < 1 && r.Ok? ==> r.value == 0.0
  {
    if p < 1 then
      if Tail(s, |s|) == Tail(t, |t|) && |s| > 0 then Raise(RecursionError) else Ok(0.0)
    else
      Ok(GapRec(s, t, |s|, |t|, p, lam))
  }

  /** For p = 1 the kernel is lam^2 exactly when the last symbols agree, and 0 otherwise. */
  lemma GapRecLengthOne(s: string, t: string, lam: real)
    ensures var r := GapWeightedSubsequencesKernelRecursive(s, t, 1, lam);
      r.Ok? && r.value == if Tail(s, |s|) == Tail(t, |t|) then Times(lam, lam) else 0.0
  {
  }

  /** For p > 1 differing last symbols give 0. */
  lemma GapRecLastSymbolsDiffer(s: string, t: string, p: nat, lam: real)
    requires p > 1 && Tail(s, |s|) != Tail(t, |t|)
    ensures GapWeightedSubsequencesKernelRecursive(s, t, p, lam) == Ok(0.0)
  {
  }

  /** With weight 0 every term vanishes. */
  lemma {:induction false} GapRecZeroWeight(s: string, t: string, i: nat, j: nat, p: nat)
    requires i <= |s| && j <= |t| && p >= 1
    ensures GapRec(s, t, i, j, p, 0.0) == 0.0
    decreases p, 2, 0
  {
    if p > 1 && Tail(s, i) == Tail(t, j) {
      GapRowsZeroWeight(s, t, i, j, p, i);
    }
  }

  lemma {:induction false} GapRowsZeroWeight(s: string, t: string, i: nat, j: nat, p: nat, m: nat)
    requires i <= |s| && j <= |t| && p >= 2 && m <= i
    ensures GapRows(s, t, i, j, p, 0.0, m) == 0.0
    decreases p, 1, m
  {
    if m > 0 {
      GapRowsZeroWeight(s, t, i, j, p, m - 1);
      GapColsZeroWeight(s, t, i, j, p, m, j);
    }
  }

  lemma {:induction false} GapColsZeroWeight(s: string, t: string, i: nat, j: nat, p: nat, a: nat, n: nat)
    requires i <= |s| && j <= |t| && p >= 2 && 1 <= a <= i && n <= j
    ensures GapCols(s, t, i, j, p, 0.0, a, n) == 0.0
    decreases p, 0, n
  {
    if n > 0 {
      GapColsZeroWeight(s, t, i, j, p, a, n - 1);
      GapRecZeroWeight(s, t, a, n, p - 1);
    }
  }

  lemma GapWeightedRecursiveZeroWeight(s: string, t: string, p: int)
    requires p >= 1
    ensures GapWeightedSubsequencesKernelRecursive(s, t, p, 0.0) == Ok(0.0)
  {
    GapRecZeroWeight(s, t, |s|, |t|, p);
  }

  /** The kernel does not depend on the order of its two strings. */
  lemma {:induction false} GapRecSymmetric(s: string, t: string, i: nat, j: nat, p: nat, lam: real)
    requires i <= |s| && j <= |t| && p >= 1
    ensures GapRec(s, t, i, j, p, lam) == GapRec(t, s, j, i, p, lam)
    decreases p, 2, 0
  {
    if p > 1 && Tail(s, i) == Tail(t, j) {
      GapRowsSymmetric(s, t, i, j, p, lam, i, j);
    }
  }

  /** Rows 1 .. m over columns 1 .. n of one table are columns 1 .. m over rows 1 .. n of the other. */
  lemma {:induction false} GapRowsSymmetric(s: string, t: string, i: nat, j: nat, p: nat, lam: real, m: nat, n: nat)
    requires i <= |s| && j <= |t| && p >= 2 && m <= i && n <= j
    ensures GapRowsUpTo(s, t, i, j, p, lam, m, n) == GapRowsUpTo(t, s, j, i, p, lam, n, m)
    ensures n == j && m == i ==> GapRows(s, t, i, j, p, lam, m) == GapRows(t, s, j, i, p, lam, n)
    decreases p, 1, m + n
  {
    if m > 0 {
      GapRowsSymmetric(s, t, i, j, p, lam, m - 1, n);
      GapRowsAppendColumn(t, s, j, i, p, lam, n, m);
      GapColsSymmetric(s, t, i, j, p, lam, m, n);
    } else {
      GapRowsUpToNoColumns(t, s, j, i, p, lam, n);
    }
    if n == j && m == i {
      GapRowsUpToFull(s, t, i, j, p, lam, m);
      GapRowsUpToFull(t, s, j, i, p, lam, n);
    }
  }

  /** Rows 1 .. m of the double loop, each cut at column n. */
  function GapRowsUpTo(s: string, t: string, i: nat, j: nat, p: nat, lam: real, m: nat, n: nat): real
    requires i <= |s| && j <= |t| && p >= 2 && m <= i && n <= j
  {
    if m == 0 then 0.0 else GapRowsUpTo(s, t, i, j, p, lam, m - 1, n) + GapCols(s, t, i, j, p, lam, m, n)
  }

  lemma {:induction false} GapRowsUpToFull(s: string, t: string, i: nat, j: nat, p: nat, lam: real, m: nat)
    requires i <= |s| && j <= |t| && p >= 2 && m <= i
    ensures GapRowsUpTo(s, t, i, j, p, lam, m, j) == GapRows(s, t, i, j, p, lam, m)
  {
    if m > 0 {
      GapRowsUpToFull(s, t, i, j, p, lam, m - 1);
    }
  }

  lemma {:induction false} GapRowsUpToNoColumns(s: string, t: string, i: nat, j: nat, p: nat, lam: real, m: nat)
    requires i <= |s| && j <= |t| && p >= 2 && m <= i
    ensures GapRowsUpTo(s, t, i, j, p, lam, m, 0) == 0.0
  {
    if m > 0 {
      GapRowsUpToNoColumns(s, t, i, j, p, lam, m - 1);
    }
  }

  /** Widening every row by column n adds those columns' terms, read as one column. */
  lemma {:induction false} GapRowsAppendColumn(s: string, t: string, i: nat, j: nat, p: nat, lam: real, m: nat, n: nat)
    requires i <= |s| && j <= |t| && p >= 2 && m <= i && 1 <= n <= j
    ensures GapRowsUpTo(s, t, i, j, p, lam, m, n)
         == GapRowsUpTo(s, t, i, j, p, lam, m, n - 1) + GapColumn(s, t, i, j, p, lam, m, n)
  {
    if m > 0 {
      GapRowsAppendColumn(s, t, i, j, p, lam, m - 1, n);
    }
  }

  /** The terms of column b over the rows a = 1 .. m. */
  function GapColumn(s: string, t: string, i: nat, j: nat, p: nat, lam: real, m: nat, b: nat): real
    requires i <= |s| && j <= |t| && p >= 2 && m <= i && 1 <= b <= j
  {
    if m == 0 then 0.0 else GapColumn(s, t, i, j, p, lam, m - 1, b) + GapTerm(s, t, i, j, p, lam, m, b)
  }

  /** Row a of one table is column a of the other, term by term. */
  lemma {:induction false} GapColsSymmetric(s: string, t: string, i: nat, j: nat, p: nat, lam: real, a: nat, n: nat)
    requires i <= |s| && j <= |t| && p >= 2 && 1 <= a <= i && n <= j
    ensures GapCols(s, t, i, j, p, lam, a, n) == GapColumn(t, s, j, i, p, lam, n, a)
    decreases p, 0, n
  {
    if n > 0 {
      GapColsSymmetric(s, t, i, j, p, lam, a, n - 1);
      GapRecSymmetric(s, t, a, n, p - 1, lam);
      assert (i - a) + (j - n) == (j - n) + (i - a);
    }
  }

  lemma GapWeightedRecursiveSymmetric(s: string, t: string, p: int, lam: real)
    ensures GapWeightedSubsequencesKernelRecursive(s, t, p, lam) == GapWeightedSubsequencesKernelRecursive(t, s, p, lam)
  {
    if p >= 1 {
      GapRecSymmetric(s, t, |s|, |t|, p, lam);
    }
  }

  // ---------------------------------------------------------------------------
  // gap_weighted_subsequences_kernel (dynamic programming)
  // ---------------------------------------------------------------------------

  /**
   * Cell (i, j) of the table `dps` once level l has been computed (level 1 is
   * its initial filling): 0 on row 0, on column 0 and where s[i-1] != t[j-1];
   * at a match lam^2 on level 1 and lam^2 * dp[i-1][j-1] of level l above it.
   */
  function GapDps(s: string, t: string, l: nat, i: nat, j: nat, lam: real): real
    requires 1 <= l && i <= |s| && j <= |t|
    decreases l, i + j
  {
    if i == 0 || j == 0 || s[i - 1] != t[j - 1] then 0.0
    else if l == 1 then Times(lam, lam)
    else Times(Times(lam, lam), GapDp(s, t, l, i - 1, j - 1, lam))
  }

  /** Cell (i, j) of the table `dp` on level l >= 2; row 0 and column 0 are never written. */
  function GapDp(s: string, t: string, l: nat, i: nat, j: nat, lam: real): real
    requires 2 <= l && i <= |s| && j <= |t|
    decreases l, i + j
  {
    if i == 0 || j == 0 then 0.0
    else GapDps(s, t, l - 1, i, j, lam) + Times(lam, GapDp(s, t, l, i - 1, j, lam))
         + Times(lam, GapDp(s, t, l, i, j - 1, lam)) - Times(Times(lam, lam), GapDp(s, t, l, i - 1, j - 1, lam))
  }

  /** What level l adds to kern[l] in row i over the columns 1 .. n: its `dps` cells at matches. */
  function GapKernRow(s: string, t: string, l: nat, i: nat, n: nat, lam: real): real
    requires 1 <= l && 1 <= i <= |s| && n <= |t|
  {
    if n == 0 then 0.0
    else GapKernRow(s, t, l, i, n - 1, lam) + (if s[i - 1] == t[n - 1] then GapDps(s, t, l, i, n, lam) else 0.0)
  }

  function GapKernRows(s: string, t: string, l: nat, m: nat, lam: real): real
    requires 1 <= l && m <= |s|
  {
    if m == 0 then 0.0 else GapKernRows(s, t, l, m - 1, lam) + GapKernRow(s, t, l, m, |t|, lam)
  }

  /** kern[l]: the sum of level l's `dps` over all matching cells. */
  function GapKern(s: string, t: string, l: nat, lam: real): real
    requires 1 <= l
  {
    GapKernRows(s, t, l, |s|, lam)
  }

  /**
   * gap_weighted_subsequences_kernel(s, t, p, lam): the levels l = 2 .. p of
   * the table recursion, returning kern[p], which is the default 0 when p < 2.
   */
  method GapWeightedSubsequencesKernel(s: string, t: string, p: int, lam: real) returns (r: real)
    ensures r == if p >= 2 then GapWeightedKernel(s, t, p, lam) else 0.0
  {
    var dps := new real[|s| + 1, |t| + 1]((_, _) => 0.0);
    for i := 1 to |s| + 1
      invariant forall a, b :: 0 <= a <= |s| && 0 <= b <= |t| ==>
        dps[a, b] == if a < i then GapDps(s, t, 1, a, b, lam) else 0.0
    {
      for j := 1 to |t| + 1
        invariant forall a, b :: 0 <= a <= |s| && 0 <= b <= |t| ==>
          dps[a, b] == if a < i || (a == i && b < j) then GapDps(s, t, 1, a, b, lam) else 0.0
      {
        if s[i - 1] == t[j - 1] {
          dps[i, j] := Times(lam, lam);
        }
      }
    }
    var dp := new real[|s| + 1, |t| + 1]((_, _) => 0.0);
    var kern: map<int, real> := map[];
    var l := 2;
    while l <= p
      invariant 2 <= l && (p >= 2 ==> l <= p + 1)
      invariant forall x :: x in kern <==> 2 <= x < l
      invariant forall x :: x in kern ==> x >= 1 && kern[x] == GapKern(s, t, x, lam)
      invariant forall a, b :: 0 <= a <= |s| && 0 <= b <= |t| ==> dps[a, b] == GapDps(s, t, l - 1, a, b, lam)
      invariant forall a :: 0 <= a <= |s| ==> dp[a, 0] == 0.0
      invariant forall b :: 0 <= b <= |t| ==> dp[0, b] == 0.0
    {
      var total := GapLevel(s, t, l, lam, dp, dps);
      kern := kern[l := total];
      l := l + 1;
    }
    r := if p in kern then kern[p] else 0.0;
    if p >= 2 {
      GapKernIsKernel(s, t, p, lam);
    }
  }

  /** One level l >= 2 of the table recursion; returns the value it accumulates in kern[l].
      `dps` leaves holding level l. The interior of `dp` is scratch: each level overwrites
      it before reading it, so only its zero row and column are carried from level to
      level. */
  method GapLevel(s: string, t: string, l: nat, lam: real, dp: array2<real>, dps: array2<real>) returns (total: real)
    requires 2 <= l && dp != dps
    requires dp.Length0 == dps.Length0 == |s| + 1 && dp.Length1 == dps.Length1 == |t| + 1
    requires forall a, b :: 0 <= a <= |s| && 0 <= b <= |t| ==> dps[a, b] == GapDps(s, t, l - 1, a, b, lam)
    requires forall a :: 0 <= a <= |s| ==> dp[a, 0] == 0.0
    requires forall b :: 0 <= b <= |t| ==> dp[0, b] == 0.0
    modifies dp, dps
    ensures forall a, b :: 0 <= a <= |s| && 0 <= b <= |t| ==> dps[a, b] == GapDps(s, t, l, a, b, lam)
    ensures forall a :: 0 <= a <= |s| ==> dp[a, 0] == 0.0
    ensures forall b :: 0 <= b <= |t| ==> dp[0, b] == 0.0
    ensures total == GapKern(s, t, l, lam)
  {
    total := 0.0;
    for i := 1 to |s| + 1
      invariant total == GapKernRows(s, t, l, i - 1, lam)
      invariant forall a, b :: 0 <= a <= |s| && 0 <= b <= |t| ==>
        dps[a, b] == GapDps(s, t, if a < i then l else l - 1, a, b, lam)
      invariant forall a, b :: a == i - 1 && 0 <= b <= |t| ==> dp[a, b] == GapDp(s, t, l, a, b, lam)
      invariant forall a :: 0 <= a <= |s| ==> dp[a, 0] == 0.0
      invariant forall b :: 0 <= b <= |t| ==> dp[0, b] == 0.0
    {
      total := GapRow(s, t, l, i, lam, dp, dps, total);
    }
  }

  /** Row i of level l: fills dp[i][*] and dps[i][*] and adds the row's matches to `total`. */
  method GapRow(s: string, t: string, l: nat, i: nat, lam: real, dp: array2<real>, dps: array2<real>, total: real)
    returns (total': real)
    requires 2 <= l && 1 <= i <= |s| && dp != dps
    requires dp.Length0 == dps.Length0 == |s| + 1 && dp.Length1 == dps.Length1 == |t| + 1
    requires forall a, b :: a == i - 1 && 0 <= b <= |t| ==> dp[a, b] == GapDp(s, t, l, a, b, lam)
    requires forall b :: 0 <= b <= |t| ==> dps[i, b] == GapDps(s, t, l - 1, i, b, lam)
    requires dp[i, 0] == 0.0
    modifies dp, dps
    ensures forall b :: 0 <= b <= |t| ==> dp[i, b] == GapDp(s, t, l, i, b, lam)
    ensures forall b :: 0 <= b <= |t| ==> dps[i, b] == GapDps(s, t, l, i, b, lam)
    ensures forall a, b :: 0 <= a <= |s| && 0 <= b <= |t| && a != i ==> dp[a, b] == old(dp[a, b])
    ensures forall a, b :: 0 <= a <= |s| && 0 <= b <= |t| && a != i ==> dps[a, b] == old(dps[a, b])
    ensures total' == total + GapKernRow(s, t, l, i, |t|, lam)
  {
    total' := total;
    for j := 1 to |t| + 1
      invariant total' == total + GapKernRow(s, t, l, i, j - 1, lam)
      invariant forall b :: 0 <= b < j ==> dps[i, b] == GapDps(s, t, l, i, b, lam)
      invariant forall b :: j <= b <= |t| ==> dps[i, b] == GapDps(s, t, l - 1, i, b, lam)
      invariant forall b :: 0 <= b < j ==> dp[i, b] == GapDp(s, t, l, i, b, lam)
      invariant forall a, b :: 0 <= a <= |s| && 0 <= b <= |t| && a != i ==> dp[a, b] == old(dp[a, b])
      invariant forall a, b :: 0 <= a <= |s| && 0 <= b <= |t| && a != i ==> dps[a, b] == old(dps[a, b])
    {
      GapCell(s, t, l, i, j, lam);
      dp[i, j] := dps[i, j] + Times(lam, dp[i - 1, j]) + Times(lam, dp[i, j - 1]) - Times(Times(lam, lam), dp[i - 1, j - 1]);
      if s[i - 1] == t[j - 1] {
        dps[i, j] := Times(Times(lam, lam), dp[i - 1, j - 1]);
        total' := total' + dps[i, j];
      }
    }
  }

  /** The three quantities of cell (i, j) on level l, each one step of its definition. */
  lemma GapCell(s: string, t: string, l: nat, i: nat, j: nat, lam: real)
    requires 2 <= l && 1 <= i <= |s| && 1 <= j <= |t|
    ensures GapDp(s, t, l, i, j, lam) == GapDps(s, t, l - 1, i, j, lam) + Times(lam, GapDp(s, t, l, i - 1, j, lam))
      + Times(lam, GapDp(s, t, l, i, j - 1, lam)) - Times(Times(lam, lam), GapDp(s, t, l, i - 1, j - 1, lam))
    ensures GapDps(s, t, l, i, j, lam) ==
      if s[i - 1] == t[j - 1] then Times(Times(lam, lam), GapDp(s, t, l, i - 1, j - 1, lam))
      else GapDps(s, t, l - 1, i, j, lam)
    ensures GapKernRow(s, t, l, i, j, lam) ==
      GapKernRow(s, t, l, i, j - 1, lam) + (if s[i - 1] == t[j - 1] then GapDps(s, t, l, i, j, lam) else 0.0)
  {
  }

  // ---------------------------------------------------------------------------
  // The table recursion in closed form, and the corrected recursive kernel
  // ---------------------------------------------------------------------------

  /** Column sums of level l's `dps` in row a, each older column weighted by one more factor lam. */
  function GapColPoly(s: string, t: string, l: nat, a: nat, n: nat, lam: real): real
    requires 1 <= l && 1 <= a <= |s| && n <= |t|
  {
    if n == 0 then 0.0 else GapDps(s, t, l, a, n, lam) + Times(lam, GapColPoly(s, t, l, a, n - 1, lam))
  }

  /** The weighted sum of level l's `dps` over rows 1 .. m and columns 1 .. n, lam^(m-a+n-b) at (a, b). */
  function GapTablePoly(s: string, t: string, l: nat, m: nat, n: nat, lam: real): real
    requires 1 <= l && m <= |s| && n <= |t|
  {
    if m == 0 then 0.0 else GapColPoly(s, t, l, m, n, lam) + Times(lam, GapTablePoly(s, t, l, m - 1, n, lam))
  }

  lemma {:induction false} GapTablePolyNoColumns(s: string, t: string, l: nat, m: nat, lam: real)
    requires 1 <= l && m <= |s|
    ensures GapTablePoly(s, t, l, m, 0, lam) == 0.0
  {
    if m > 0 {
      GapTablePolyNoColumns(s, t, l, m - 1, lam);
    }
  }

  /**
   * The dp table of level l is the weighted sum of the previous level's
   * `dps` over the rectangle above and to the left of each cell.
   */
  lemma {:induction false} GapDpClosedForm(s: string, t: string, l: nat, i: nat, j: nat, lam: real)
    requires 2 <= l && i <= |s| && j <= |t|
    ensures GapDp(s, t, l, i, j, lam) == GapTablePoly(s, t, l - 1, i, j, lam)
    decreases i + j
  {
    if i == 0 {
    } else if j == 0 {
      GapTablePolyNoColumns(s, t, l - 1, i, lam);
    } else {
      GapDpClosedForm(s, t, l, i - 1, j, lam);
      GapDpClosedForm(s, t, l, i, j - 1, lam);
      GapDpClosedForm(s, t, l, i - 1, j - 1, lam);
      var x := GapDps(s, t, l - 1, i, j, lam);
      var up := GapTablePoly(s, t, l - 1, i - 1, j, lam);
      var diag := GapTablePoly(s, t, l - 1, i - 1, j - 1, lam);
      var col := GapColPoly(s, t, l - 1, i, j - 1, lam);
      assert GapTablePoly(s, t, l - 1, i, j - 1, lam) == col + Times(lam, diag);
      assert GapColPoly(s, t, l - 1, i, j, lam) == x + Times(lam, col);
      assert GapTablePoly(s, t, l - 1, i, j, lam) == GapColPoly(s, t, l - 1, i, j, lam) + Times(lam, up);
      InclusionExclusion(lam, x, col, up, diag);
    }
  }

  /** The step of the table recursion that removes the doubly counted corner. */
  lemma InclusionExclusion(lam: real, x: real, col: real, up: real, diag: real)
    ensures x + Times(lam, up) + Times(lam, col + Times(lam, diag)) - Times(Times(lam, lam), diag)
         == (x + Times(lam, col)) + Times(lam, up)
  {
    assert lam * (col + lam * diag) == lam * col + (lam * lam) * diag;
  }

  /**
   * The recursion of gap_weighted_subsequences_kernel_recursive as it was
   * evidently meant: the prefixes it recurses on are those of s and t
   * without their common last symbol (the unused `s_head`, `t_head`),
   * weighted by lam^(2 + |s_head| - a + |t_head| - b). This is the
   * suffix kernel: the weight of the common subsequences of length p of
   * s[:i] and t[:j] that use the last symbol of both.
   */
  function GapSuffixKernel(s: string, t: string, i: nat, j: nat, p: nat, lam: real): real
    requires 1 <= i <= |s| && 1 <= j <= |t| && p >= 1
    decreases p, 2, 0
  {
    if s[i - 1] != t[j - 1] then 0.0
    else if p == 1 then Times(lam, lam)
    else GapSuffixRows(s, t, i - 1, j - 1, p, lam, i - 1)
  }

  /** Rows a = 1 .. m of the corrected double loop over the heads s[:hi], t[:hj]. */
  function GapSuffixRows(s: string, t: string, hi: nat, hj: nat, p: nat, lam: real, m: nat): real
    requires hi < |s| && hj < |t| && p >= 2 && m <= hi
    decreases p, 1, m
  {
    if m == 0 then 0.0 else GapSuffixRows(s, t, hi, hj, p, lam, m - 1) + GapSuffixCols(s, t, hi, hj, p, lam, m, hj)
  }

  function GapSuffixCols(s: string, t: string, hi: nat, hj: nat, p: nat, lam: real, a: nat, n: nat): real
    requires hi < |s| && hj < |t| && p >= 2 && 1 <= a <= hi && n <= hj
    decreases p, 0, n
  {
    if n == 0 then 0.0
    else GapSuffixCols(s, t, hi, hj, p, lam, a, n - 1)
         + Times(Pow(lam, 2 + (hi - a) + (hj - n)), GapSuffixKernel(s, t, a, n, p - 1, lam))
  }

  /** On level p the `dps` table holds the suffix kernel of every pair of prefixes. */
  lemma {:induction false} GapDpsIsSuffixKernel(s: string, t: string, i: nat, j: nat, p: nat, lam: real)
    requires 1 <= i <= |s| && 1 <= j <= |t| && p >= 1
    ensures GapDps(s, t, p, i, j, lam) == GapSuffixKernel(s, t, i, j, p, lam)
    decreases p, 2, 0
  {
    if s[i - 1] == t[j - 1] && p >= 2 {
      GapSuffixRowsAsTable(s, t, i - 1, j - 1, p, lam, i - 1);
      GapDpClosedForm(s, t, p, i - 1, j - 1, lam);
      assert Pow(lam, 1) == Times(lam, 1.0) == lam;
      assert Pow(lam, 2) == Times(lam, lam);
    }
  }

  lemma {:induction false} GapSuffixRowsAsTable(s: string, t: string, hi: nat, hj: nat, p: nat, lam: real, m: nat)
    requires hi < |s| && hj < |t| && p >= 2 && m <= hi
    ensures GapSuffixRows(s, t, hi, hj, p, lam, m) == Times(Pow(lam, 2 + (hi - m)), GapTablePoly(s, t, p - 1, m, hj, lam))
    decreases p, 1, m
  {
    if m > 0 {
      GapSuffixRowsAsTable(s, t, hi, hj, p, lam, m - 1);
      GapSuffixColsAsTable(s, t, hi, hj, p, lam, m, hj);
      var w := Pow(lam, 2 + (hi - m));
      assert 2 + (hi - (m - 1)) == (2 + (hi - m)) + 1;
      assert 2 + (hi - m) + (hj - hj) == 2 + (hi - m);
      WeightedStep(lam, w, GapSuffixRows(s, t, hi, hj, p, lam, m - 1), GapSuffixCols(s, t, hi, hj, p, lam, m, hj),
        GapColPoly(s, t, p - 1, m, hj, lam), GapTablePoly(s, t, p - 1, m - 1, hj, lam), GapTablePoly(s, t, p - 1, m, hj, lam));
    }
  }

  lemma {:induction false} GapSuffixColsAsTable(s: string, t: string, hi: nat, hj: nat, p: nat, lam: real, a: nat, n: nat)
    requires hi < |s| && hj < |t| && p >= 2 && 1 <= a <= hi && n <= hj
    ensures GapSuffixCols(s, t, hi, hj, p, lam, a, n) == Times(Pow(lam, 2 + (hi - a) + (hj - n)), GapColPoly(s, t, p - 1, a, n, lam))
    decreases p, 0, n
  {
    if n > 0 {
      GapSuffixColsAsTable(s, t, hi, hj, p, lam, a, n - 1);
      GapDpsIsSuffixKernel(s, t, a, n, p - 1, lam);
      var w := Pow(lam, 2 + (hi - a) + (hj - n));
      assert 2 + (hi - a) + (hj - (n - 1)) == (2 + (hi - a) + (hj - n)) + 1;
      WeightedStep(lam, w, GapSuffixCols(s, t, hi, hj, p, lam, a, n - 1), Times(w, GapSuffixKernel(s, t, a, n, p - 1, lam)),
        GapDps(s, t, p - 1, a, n, lam), GapColPoly(s, t, p - 1, a, n - 1, lam), GapColPoly(s, t, p - 1, a, n, lam));
    }
  }

  /** Adding the newest term to a weighted sum whose older terms carry one more factor lam. */
  lemma WeightedStep(lam: real, w: real, older: real, newest: real, x: real, rest: real, whole: real)
    requires older == Times(Times(lam, w), rest)
    requires newest == Times(w, x)
    requires whole == x + Times(lam, rest)
    ensures older + newest == Times(w, whole)
  {
    assert w * (x + lam * rest) == w * x + w * (lam * rest);
  }

  /** No common subsequence is longer than either prefix. */
  lemma {:induction false} GapSuffixKernelTooLong(s: string, t: string, i: nat, j: nat, p: nat, lam: real)
    requires 1 <= i <= |s| && 1 <= j <= |t| && p >= 1 && (p > i || p > j)
    ensures GapSuffixKernel(s, t, i, j, p, lam) == 0.0
    decreases p, 2, 0
  {
    if s[i - 1] == t[j - 1] {
      GapSuffixRowsTooLong(s, t, i - 1, j - 1, p, lam, i - 1);
    }
  }

  lemma {:induction false} GapSuffixRowsTooLong(s: string, t: string, hi: nat, hj: nat, p: nat, lam: real, m: nat)
    requires hi < |s| && hj < |t| && p >= 2 && m <= hi && (p > hi + 1 || p > hj + 1)
    ensures GapSuffixRows(s, t, hi, hj, p, lam, m) == 0.0
    decreases p, 1, m
  {
    if m > 0 {
      GapSuffixRowsTooLong(s, t, hi, hj, p, lam, m - 1);
      GapSuffixColsTooLong(s, t, hi, hj, p, lam, m, hj);
    }
  }

  lemma {:induction false} GapSuffixColsTooLong(s: string, t: string, hi: nat, hj: nat, p: nat, lam: real, a: nat, n: nat)
    requires hi < |s| && hj < |t| && p >= 2 && 1 <= a <= hi && n <= hj && (p > hi + 1 || p > hj + 1)
    ensures GapSuffixCols(s, t, hi, hj, p, lam, a, n) == 0.0
    decreases p, 0, n
  {
    if n > 0 {
      GapSuffixColsTooLong(s, t, hi, hj, p, lam, a, n - 1);
      GapSuffixKernelTooLong(s, t, a, n, p - 1, lam);
      assert Times(Pow(lam, 2 + (hi - a) + (hj - n)), 0.0) == 0.0;
    }
  }

  /**
   * As written, the recursion counts the common last symbol twice: for "a"
   * and "a" and p = 2 it returns lam^4, although neither string has a
   * subsequence of length 2; the corrected recursion gives 0.
   */
  lemma GapRecursiveReusesLastSymbol(s: string, t: string, lam: real)
    requires s == "a" && t == "a"
    ensures GapWeightedSubsequencesKernelRecursive(s, t, 2, lam) == Ok(Pow(lam, 4))
    ensures GapSuffixKernel(s, t, 1, 1, 2, lam) == 0.0
  {
    assert GapRec(s, t, 1, 1, 1, lam) == Times(lam, lam);
    assert GapCols(s, t, 1, 1, 2, lam, 1, 1) == Times(Pow(lam, 2), Times(lam, lam));
    assert GapRows(s, t, 1, 1, 2, lam, 1) == Times(Pow(lam, 2), Times(lam, lam));
    PowFour(lam);
    GapSuffixKernelTooLong(s, t, 1, 1, 2, lam);
  }

  lemma PowFour(lam: real)
    ensures Times(Pow(lam, 2), Times(lam, lam)) == Pow(lam, 4)
  {
    assert Pow(lam, 1) == lam;
    assert Pow(lam, 2) == Times(lam, lam);
    assert Pow(lam, 3) == Times(lam, Times(lam, lam));
    assert Pow(lam, 4) == Times(lam, Times(lam, Times(lam, lam)));
    assert (lam * lam) * (lam * lam) == lam * (lam * (lam * lam));
  }

  /** Row i over columns 1 .. n of the suffix kernel on level p. */
  function GapSuffixSumRow(s: string, t: string, p: nat, i: nat, n: nat, lam: real): real
    requires 1 <= p && 1 <= i <= |s| && n <= |t|
  {
    if n == 0 then 0.0 else GapSuffixSumRow(s, t, p, i, n - 1, lam) + GapSuffixKernel(s, t, i, n, p, lam)
  }

  function GapSuffixSumRows(s: string, t: string, p: nat, m: nat, lam: real): real
    requires 1 <= p && m <= |s|
  {
    if m == 0 then 0.0 else GapSuffixSumRows(s, t, p, m - 1, lam) + GapSuffixSumRow(s, t, p, m, |t|, lam)
  }

  /**
   * The gap-weighted subsequence kernel of length p: the suffix kernel
   * summed over every pair of non-empty prefixes; 0 when p < 1.
   */
  function GapWeightedKernel(s: string, t: string, p: int, lam: real): real
  {
    if p < 1 then 0.0 else GapSuffixSumRows(s, t, p, |s|, lam)
  }

  lemma {:induction false} GapKernRowIsSuffixSum(s: string, t: string, p: nat, i: nat, n: nat, lam: real)
    requires 1 <= p && 1 <= i <= |s| && n <= |t|
    ensures GapKernRow(s, t, p, i, n, lam) == GapSuffixSumRow(s, t, p, i, n, lam)
  {
    if n > 0 {
      GapKernRowIsSuffixSum(s, t, p, i, n - 1, lam);
      GapDpsIsSuffixKernel(s, t, i, n, p, lam);
    }
  }

  lemma {:induction false} GapKernRowsIsSuffixSum(s: string, t: string, p: nat, m: nat, lam: real)
    requires 1 <= p && m <= |s|
    ensures GapKernRows(s, t, p, m, lam) == GapSuffixSumRows(s, t, p, m, lam)
  {
    if m > 0 {
      GapKernRowsIsSuffixSum(s, t, p, m - 1, lam);
      GapKernRowIsSuffixSum(s, t, p, m, |t|, lam);
    }
  }

  /** kern[l] of the table algorithm is the gap-weighted kernel of length l, for every l >= 1. */
  lemma GapKernIsKernel(s: string, t: string, l: nat, lam: real)
    requires l >= 1
    ensures GapKern(s, t, l, lam) == GapWeightedKernel(s, t, l, lam)
  {
    GapKernRowsIsSuffixSum(s, t, l, |s|, lam);
  }

  /**
   * For p = 1 the kernel is lam^2 per pair of equal symbols, which the
   * table algorithm would hold in kern[1]; it returns 0 instead because its
   * levels start at 2.
   */
  lemma GapWeightedLengthOne(s: string, t: string, lam: real)
    requires s == "a" && t == "a"
    ensures GapWeightedKernel(s, t, 1, lam) == Times(lam, lam)
  {
    assert |s| == 1 && |t| == 1 && s[0] == t[0];
    assert GapSuffixKernel(s, t, 1, 1, 1, lam) == Times(lam, lam);
    assert GapSuffixSumRow(s, t, 1, 1, 1, lam) == Times(lam, lam);
    assert GapSuffixSumRows(s, t, 1, 1, lam) == Times(lam, lam);
  }
}
