/**
 * Spectrum kernels over strings (Shawe-Taylor and Cristianini 2004, p. 349):
 * the k-suffix indicator, the p-spectrum double loop and the brute-force
 * blended spectrum triple loop of spectrum_kernel.py.
 */
module SpectrumKernel {
  import opened Exceptions

  // ---------------------------------------------------------------------------
  // Python string slicing
  // ---------------------------------------------------------------------------

  /** Python's `s[-k:]` for k >= 0: `s[-0:]` is all of s, and so is a k beyond |s|. */
  function PySuffix(s: string, k: nat): (r: string)
    ensures |r| == if 0 < k <= |s| then k else |s|
  {
    if 0 < k <= |s| then s[|s| - k..] else s
  }

  /** Python's `s[i:j]` for non-negative bounds: both bounds are clamped to |s|. */
  function PySlice(s: string, i: nat, j: nat): (r: string)
    ensures |r| == if i < j && i < |s| then (if j <= |s| then j else |s|) - i else 0
    ensures i <= j <= |s| ==> r == s[i..j]
  {
    if i < j && i < |s| then s[i..if j <= |s| then j else |s|] else ""
  }

  // ---------------------------------------------------------------------------
  // k_suffix_kernel
  // ---------------------------------------------------------------------------

  /**
   * k_suffix_kernel(k, s, t): the assertion fails unless both strings are at
   * least k long; otherwise 1 when the last k symbols agree (for k = 0, when
   * the whole strings agree, since `s[-0:]` is s) and 0 otherwise.
   */
  function KSuffixKernel(k: nat, s: string, t: string): (r: Result<nat>)
    ensures r.Raise? <==> (|s| < k || |t| < k)
    ensures r.Raise? ==> r.exc == AssertionError
    ensures r.Ok? ==> (r.value == 0 || r.value == 1)
  {
    if !(Min(|s|, |t|) >= k) then
      Raise(AssertionError)
    else
      var sSuffix := PySuffix(s, k);
      var tSuffix := PySuffix(t, k);
      Ok(if sSuffix == tSuffix then 1 else 0)
  }

  function Min(a: int, b: int): int { if a <= b then a else b }

  /** The indicator is 1 exactly when the last k symbols agree; for k = 0, when the strings agree. */
  lemma KSuffixKernelMatches(k: nat, s: string, t: string)
    requires k <= |s| && k <= |t|
    ensures KSuffixKernel(k, s, t).Ok?
    ensures KSuffixKernel(k, s, t).value == 1 <==> if k == 0 then s == t else s[|s| - k..] == t[|t| - k..]
  {
  }

  /** The k-suffix indicator does not depend on the order of its two strings. */
  lemma KSuffixKernelSymmetric(k: nat, s: string, t: string)
    ensures KSuffixKernel(k, s, t) == KSuffixKernel(k, t, s)
  {
  }

  /** The table of test_spectrum_kernel.py read as (s, t, k) in the code's order (k, s, t):
      five entries hold, and the four whose strings are shorter than k, where the table
      expects 0, raise AssertionError. */
  lemma KSuffixKernelTestTable()
    ensures KSuffixKernel(1, "a", "a") == Ok(1)
    ensures KSuffixKernel(1, "aa", "ab") == Ok(0)
    ensures KSuffixKernel(2, "aa", "ab") == Ok(0)
    ensures KSuffixKernel(1, "ab", "ab") == Ok(1)
    ensures KSuffixKernel(2, "ab", "ab") == Ok(1)
    ensures KSuffixKernel(1, "", "") == Raise(AssertionError)
    ensures KSuffixKernel(2, "", "") == Raise(AssertionError)
    ensures KSuffixKernel(1, "a", "") == Raise(AssertionError)
    ensures KSuffixKernel(2, "a", "a") == Raise(AssertionError)
  {
    assert PySuffix("aa", 1) == "a" && PySuffix("ab", 1) == "b";
  }

  /** The 0/1 identity indicator (`delta` in the source). */
  function Delta(x: string, y: string): nat
  {
    if x == y then 1 else 0
  }

  /** On two strings of length exactly k the indicator is plain equality. */
  lemma KSuffixKernelOfWindows(k: nat, x: string, y: string)
    requires |x| == k && |y| == k
    ensures KSuffixKernel(k, x, y) == Ok(Delta(x, y))
  {
    assert PySuffix(x, k) == x && PySuffix(y, k) == y;
  }

  // ---------------------------------------------------------------------------
  // Counting equal pairs of windows
  // ---------------------------------------------------------------------------

  /** The window `s[i:i+p]`. */
  function Window(s: string, p: nat, i: nat): (r: string)
    ensures i + p <= |s| ==> |r| == p
  {
    PySlice(s, i, i + p)
  }

  /** Number of windows of length p in s: |s| - p + 1, or none when p exceeds |s|. */
  function WindowCount(s: string, p: nat): nat
  {
    if p <= |s| then |s| - p + 1 else 0
  }

  /** Number of j < n with t[j:j+p] == x. */
  function Occ(x: string, t: string, p: nat, n: nat): nat
  {
    if n == 0 then 0 else Occ(x, t, p, n - 1) + Delta(x, Window(t, p, n - 1))
  }

  /** Number of pairs (i, j), i < m and j < n, with s[i:i+p] == t[j:j+p]. */
  function Pairs(s: string, t: string, p: nat, m: nat, n: nat): nat
  {
    if m == 0 then 0 else Pairs(s, t, p, m - 1, n) + Occ(Window(s, p, m - 1), t, p, n)
  }

  lemma MulStep(m: nat, n: nat)
    requires m > 0
    ensures (m - 1) * n + n == m * n
  {
  }

  lemma {:induction false} OccBound(x: string, t: string, p: nat, n: nat)
    ensures Occ(x, t, p, n) <= n
  {
    if n > 0 {
      OccBound(x, t, p, n - 1);
    }
  }

  /** At most one pair per index pair. */
  lemma {:induction false} PairsBound(s: string, t: string, p: nat, m: nat, n: nat)
    ensures Pairs(s, t, p, m, n) <= m * n
  {
    if m > 0 {
      PairsBound(s, t, p, m - 1, n);
      OccBound(Window(s, p, m - 1), t, p, n);
      MulStep(m, n);
    }
  }

  /** Widening the range of j by one adds one pair per i whose window equals t's new window. */
  lemma {:induction false} PairsAppendRight(s: string, t: string, p: nat, m: nat, n: nat)
    ensures Pairs(s, t, p, m, n + 1) == Pairs(s, t, p, m, n) + Occ(Window(t, p, n), s, p, m)
  {
    if m > 0 {
      PairsAppendRight(s, t, p, m - 1, n);
    }
  }

  lemma {:induction false} PairsEmptyRight(s: string, t: string, p: nat, m: nat)
    ensures Pairs(s, t, p, m, 0) == 0
  {
    if m > 0 {
      PairsEmptyRight(s, t, p, m - 1);
    }
  }

  /** Counting pairs row by row or column by column gives the same number. */
  lemma {:induction false} PairsSymmetric(s: string, t: string, p: nat, m: nat, n: nat)
    ensures Pairs(s, t, p, m, n) == Pairs(t, s, p, n, m)
    decreases m + n
  {
    if m > 0 {
      PairsSymmetric(s, t, p, m - 1, n);
      PairsAppendRight(t, s, p, n, m - 1);
    } else {
      PairsEmptyRight(t, s, p, n);
    }
  }

  /** With p = 0 every window is the empty string, so every pair counts. */
  lemma {:induction false} PairsEmptyWindows(s: string, t: string, m: nat, n: nat)
    ensures Pairs(s, t, 0, m, n) == m * n
  {
    if m > 0 {
      PairsEmptyWindows(s, t, m - 1, n);
      OccEmptyWindows(t, n);
      MulStep(m, n);
    }
  }

  lemma {:induction false} OccEmptyWindows(t: string, n: nat)
    ensures Occ("", t, 0, n) == n
  {
    if n > 0 {
      OccEmptyWindows(t, n - 1);
    }
  }

  // ---------------------------------------------------------------------------
  // p_spectrum_kernel
  // ---------------------------------------------------------------------------

  /**
   * The value p_spectrum_kernel(p, s, t) computes: the number of pairs (i, j),
   * BOTH ranging over 0 .. |s| - p, with s[i:i+p] == t[j:j+p].
   */
  function PSpectrum(p: nat, s: string, t: string): nat
  {
    var n := WindowCount(s, p);
    Pairs(s, t, p, n, n)
  }

  /**
   * The spectrum kernel the docstring states: pairs of length-p windows of s
   * and of t, the second index ranging over 0 .. |t| - p.
   */
  function SpectrumCount(p: nat, s: string, t: string): nat
  {
    Pairs(s, t, p, WindowCount(s, p), WindowCount(t, p))
  }

  /**
   * The k-suffix assertion inside p_spectrum_kernel fails exactly when some
   * window t[j:j+p] with j <= |s| - p is cut short, i.e. when t is shorter
   * than s and 0 < p <= |s|.
   */
  predicate PSpectrumRaises(p: nat, s: string, t: string)
  {
    0 < p <= |s| && |t| < |s|
  }

  /**
   * One comparison of the double loop: the assertion fails only when t is
   * shorter than s, and a comparison that succeeds leaves room for the next j.
   */
  lemma PSpectrumStep(p: nat, s: string, t: string, i: nat, j: nat)
    requires p <= |s| && i <= |s| - p && j <= |s| - p
    ensures var k := KSuffixKernel(p, Window(s, p, i), Window(t, p, j));
      && (k.Raise? ==> PSpectrumRaises(p, s, t) && k.exc == AssertionError)
      && (k.Ok? ==> k.value == Delta(Window(s, p, i), Window(t, p, j)))
      && (k.Ok? && PSpectrumRaises(p, s, t) ==> j < |s| - p)
  {
    var x, y := Window(s, p, i), Window(t, p, j);
    if |y| == p {
      KSuffixKernelOfWindows(p, x, y);
    }
  }

  method PSpectrumKernel(p: nat, s: string, t: string) returns (r: Result<nat>)
    ensures r == if PSpectrumRaises(p, s, t) then Raise(AssertionError) else Ok(PSpectrum(p, s, t))
  {
    var n := WindowCount(s, p);  // len(range(len(s) - p + 1))
    var result := 0;
    var i := 0;
    while i < n
      invariant 0 <= i <= n
      invariant PSpectrumRaises(p, s, t) ==> i == 0
      invariant result == Pairs(s, t, p, i, n)
    {
      var j := 0;
      while j < n
        invariant 0 <= j <= n
        invariant PSpectrumRaises(p, s, t) ==> j < n
        invariant result == Pairs(s, t, p, i, n) + Occ(Window(s, p, i), t, p, j)
      {
        PSpectrumStep(p, s, t, i, j);
        var k := KSuffixKernel(p, Window(s, p, i), Window(t, p, j));
        if k.Raise? {
          return k.PropagateFailure();
        }
        result := result + k.value;
        j := j + 1;
      }
      i := i + 1;
    }
    return Ok(result);
  }

  /** A window length beyond |s| gives an empty double loop. */
  lemma PSpectrumTooLong(p: nat, s: string, t: string)
    requires p > |s|
    ensures PSpectrum(p, s, t) == 0 && !PSpectrumRaises(p, s, t)
  {
  }

  /** At most one match per index pair. */
  lemma PSpectrumBound(p: nat, s: string, t: string)
    ensures PSpectrum(p, s, t) <= WindowCount(s, p) * WindowCount(s, p)
  {
    PairsBound(s, t, p, WindowCount(s, p), WindowCount(s, p));
  }

  /** For p = 0 every window is the empty string, so all (|s|+1)^2 pairs match. */
  lemma PSpectrumEmptyWindows(s: string, t: string)
    ensures PSpectrum(0, s, t) == (|s| + 1) * (|s| + 1)
  {
    PairsEmptyWindows(s, t, |s| + 1, |s| + 1);
  }

  /** On strings of equal length the double loop is the spectrum kernel, and symmetric. */
  lemma PSpectrumEqualLength(p: nat, s: string, t: string)
    requires |s| == |t|
    ensures PSpectrum(p, s, t) == SpectrumCount(p, s, t)
    ensures PSpectrum(p, s, t) == PSpectrum(p, t, s)
  {
    PairsSymmetric(s, t, p, WindowCount(s, p), WindowCount(s, p));
  }

  /**
   * The second loop bound uses |s| where the docstring's sum uses |t|: when t
   * is longer than s, windows of t beyond index |s| - p are never compared.
   * Input: p = 1, s = "a", t = "ba".
   */
  lemma PSpectrumIgnoresTailOfT()
    ensures !PSpectrumRaises(1, "a", "ba")
    ensures PSpectrum(1, "a", "ba") == 0
    ensures SpectrumCount(1, "a", "ba") == 1
  {
    assert Window("a", 1, 0) == "a";
    assert Window("ba", 1, 0) == "b";
    assert Window("ba", 1, 1) == "a";
  }

  /** The double loop with the second bound taken from t, as the docstring's formula has it. */
  method SpectrumKernel(p: nat, s: string, t: string) returns (r: nat)
    ensures r == SpectrumCount(p, s, t)
  {
    var ns, nt := WindowCount(s, p), WindowCount(t, p);
    var result := 0;
    var i := 0;
    while i < ns
      invariant 0 <= i <= ns
      invariant result == Pairs(s, t, p, i, nt)
    {
      var j := 0;
      while j < nt
        invariant 0 <= j <= nt
        invariant result == Pairs(s, t, p, i, nt) + Occ(Window(s, p, i), t, p, j)
      {
        KSuffixKernelOfWindows(p, Window(s, p, i), Window(t, p, j));
        var k := KSuffixKernel(p, Window(s, p, i), Window(t, p, j));
        result := result + k.value;
        j := j + 1;
      }
      i := i + 1;
    }
    return result;
  }

  /** The corrected kernel is symmetric on all inputs. */
  lemma SpectrumCountSymmetric(p: nat, s: string, t: string)
    ensures SpectrumCount(p, s, t) == SpectrumCount(p, t, s)
  {
    PairsSymmetric(s, t, p, WindowCount(s, p), WindowCount(t, p));
  }

  /** The worked values of the test suite, with the arguments in the code's order (p, s, t). */
  lemma PSpectrumWorkedValues()
    ensures PSpectrum(2, "bar", "bar") == 2
    ensures PSpectrum(2, "bar", "bat") == 1
    ensures PSpectrum(2, "bar", "car") == 1
    ensures PSpectrum(2, "bar", "cat") == 0
  {
    PSpectrumBarBar();
    PSpectrumBarBat();
    PSpectrumBarCar();
    PSpectrumBarCat();
  }

  lemma PSpectrumBarBar()
    ensures PSpectrum(2, "bar", "bar") == 2
  {
    assert Window("bar", 2, 0) == "ba" && Window("bar", 2, 1) == "ar";
  }

  lemma PSpectrumBarBat()
    ensures PSpectrum(2, "bar", "bat") == 1
  {
    assert Window("bar", 2, 0) == "ba" && Window("bar", 2, 1) == "ar";
    assert Window("bat", 2, 0) == "ba" && Window("bat", 2, 1) == "at";
  }

  lemma PSpectrumBarCar()
    ensures PSpectrum(2, "bar", "car") == 1
  {
    assert Window("bar", 2, 0) == "ba" && Window("bar", 2, 1) == "ar";
    assert Window("car", 2, 0) == "ca" && Window("car", 2, 1) == "ar";
  }

  lemma PSpectrumBarCat()
    ensures PSpectrum(2, "bar", "cat") == 0
  {
    assert Window("bar", 2, 0) == "ba" && Window("bar", 2, 1) == "ar";
    assert Window("cat", 2, 0) == "ca" && Window("cat", 2, 1) == "at";
  }

  // ---------------------------------------------------------------------------
  // bruteforce_blended_spectrum_kernel
  // ---------------------------------------------------------------------------

  /** Equal-window pairs summed over the window lengths 1 .. p. */
  function BlendedSpectrum(s: string, t: string, p: nat): nat
  {
    if p == 0 then 0 else BlendedSpectrum(s, t, p - 1) + SpectrumCount(p, s, t)
  }

  method BruteforceBlendedSpectrumKernel(s: string, t: string, p: nat) returns (r: nat)
    ensures r == BlendedSpectrum(s, t, p)
  {
    var result := 0;
    var h := 0;
    while h < p
      invariant 0 <= h <= p
      invariant result == BlendedSpectrum(s, t, h)
    {
      var q := h + 1;
      var ns, nt := WindowCount(s, q), WindowCount(t, q);  // len(range(len(s) - h))
      ghost var before := result;
      var i := 0;
      while i < ns
        invariant 0 <= i <= ns
        invariant result == before + Pairs(s, t, q, i, nt)
      {
        var j := 0;
        while j < nt
          invariant 0 <= j <= nt
          invariant result == before + Pairs(s, t, q, i, nt) + Occ(Window(s, q, i), t, q, j)
        {
          result := result + Delta(PySlice(s, i, i + q), PySlice(t, j, j + q));
          j := j + 1;
        }
        i := i + 1;
      }
      h := h + 1;
    }
    return result;
  }

  /** Allowing longer windows never lowers the count. */
  lemma {:induction false} BlendedSpectrumMonotone(s: string, t: string, p: nat, q: nat)
    requires p <= q
    ensures BlendedSpectrum(s, t, p) <= BlendedSpectrum(s, t, q)
    decreases q
  {
    if p < q {
      BlendedSpectrumMonotone(s, t, p, q - 1);
    }
  }

  /** The blended count does not depend on the order of the two strings. */
  lemma {:induction false} BlendedSpectrumSymmetric(s: string, t: string, p: nat)
    ensures BlendedSpectrum(s, t, p) == BlendedSpectrum(t, s, p)
  {
    if p > 0 {
      BlendedSpectrumSymmetric(s, t, p - 1);
      SpectrumCountSymmetric(p, s, t);
      assert BlendedSpectrum(s, t, p) == BlendedSpectrum(s, t, p - 1) + SpectrumCount(p, s, t);
      assert BlendedSpectrum(t, s, p) == BlendedSpectrum(t, s, p - 1) + SpectrumCount(p, t, s);
    }
  }

  /** The doctests of bruteforce_blended_spectrum_kernel. */
  lemma BlendedSpectrumDoctests()
    ensures BlendedSpectrum("a", "a", 1) == 1
    ensures BlendedSpectrum("a", "b", 1) == 0
    ensures BlendedSpectrum("ab", "ab", 1) == 2
  {
    assert Window("a", 1, 0) == "a" && Window("b", 1, 0) == "b";
    assert Window("ab", 1, 0) == "a" && Window("ab", 1, 1) == "b";
  }

  lemma SpectrumCountAbccc1()
    ensures SpectrumCount(1, "abccc", "abc") == 5
  {
    var s, t := "abccc", "abc";
    assert Window(s, 1, 0) == "a" && Window(s, 1, 1) == "b" && Window(s, 1, 2) == "c";
    assert Window(s, 1, 3) == "c" && Window(s, 1, 4) == "c";
    assert Window(t, 1, 0) == "a" && Window(t, 1, 1) == "b" && Window(t, 1, 2) == "c";
  }

  lemma SpectrumCountAbccc2()
    ensures SpectrumCount(2, "abccc", "abc") == 2
  {
    var s, t := "abccc", "abc";
    assert Window(s, 2, 0) == "ab" && Window(s, 2, 1) == "bc" && Window(s, 2, 2) == "cc";
    assert Window(s, 2, 3) == "cc";
    assert Window(t, 2, 0) == "ab" && Window(t, 2, 1) == "bc";
  }

  /** ('abccc', 'abc', 2) and ('abc', 'abccc', 2) both give 7 = 5 + 2. */
  lemma BlendedSpectrumAbccc()
    ensures BlendedSpectrum("abccc", "abc", 2) == 7
    ensures BlendedSpectrum("abc", "abccc", 2) == 7
  {
    SpectrumCountAbccc1();
    SpectrumCountAbccc2();
    BlendedSpectrumSymmetric("abccc", "abc", 2);
  }
}
