/**
 * The similarity engine of `src/utils/fuzzyMatch.js`: Levenshtein edit
 * distance filled into a dynamic-programming matrix, and the 0-100
 * similarity score built on it.
 */
module SimilarityEngine {
  import opened Text

  /** `Math.max` of two numbers. */
  function Max(a: int, b: int): int { if a < b then b else a }

  function Min3(a: int, b: int, c: int): int
  {
    if a <= b && a <= c then a else if b <= c then b else c
  }

  /**
   * The edit distance of `a` and `b`, by the recurrence the matrix cell
   * `dp[i][j]` obeys for the prefixes of length `i` and `j`: equal last
   * characters cost nothing, otherwise one deletion, insertion or substitution.
   */
  function Distance(a: string, b: string): nat
    decreases |a| + |b|
  {
    if |a| == 0 then |b|
    else if |b| == 0 then |a|
    else if a[|a| - 1] == b[|b| - 1] then Distance(a[..|a| - 1], b[..|b| - 1])
    else 1 + Min3(Distance(a[..|a| - 1], b), Distance(a, b[..|b| - 1]), Distance(a[..|a| - 1], b[..|b| - 1]))
  }

  /**
   * `levenshteinDistance`: fills the (m+1) x (n+1) matrix row by row --
   * first column, first row, then every inner cell from its three
   * neighbours -- and returns the bottom-right cell.
   */
  method LevenshteinDistance(str1: string, str2: string) returns (d: nat)
    ensures d == Distance(str1, str2)
  {
    var m, n := |str1|, |str2|;
    var dp := new nat[m + 1, n + 1];
    for i := 0 to m + 1
      invariant forall k :: 0 <= k < i ==> dp[k, 0] == k
    {
      dp[i, 0] := i;
    }
    for j := 0 to n + 1
      invariant forall k :: 0 <= k <= m ==> dp[k, 0] == k
      invariant forall k :: 0 <= k < j ==> dp[0, k] == k
    {
      dp[0, j] := j;
    }
    for i := 1 to m + 1
      invariant forall k :: 0 <= k <= m ==> dp[k, 0] == k
      invariant forall k, l :: 0 <= k < i && 0 <= l <= n ==> dp[k, l] == Distance(str1[..k], str2[..l])
    {
      for j := 1 to n + 1
        invariant forall k :: 0 <= k <= m ==> dp[k, 0] == k
        invariant forall k, l :: 0 <= k < i && 0 <= l <= n ==> dp[k, l] == Distance(str1[..k], str2[..l])
        invariant forall l :: 0 <= l < j ==> dp[i, l] == Distance(str1[..i], str2[..l])
      {
        DistanceStep(str1, str2, i, j);
        if str1[i - 1] == str2[j - 1] {
          dp[i, j] := dp[i - 1, j - 1];
        } else {
          dp[i, j] := 1 + Min3(dp[i - 1, j], dp[i, j - 1], dp[i - 1, j - 1]);
        }
      }
    }
    assert str1[..m] == str1 && str2[..n] == str2;
    d := dp[m, n];
  }

  /** One cell of the matrix: the recurrence read at the prefixes of length `i` and `j`. */
  lemma DistanceStep(a: string, b: string, i: nat, j: nat)
    requires 1 <= i <= |a| && 1 <= j <= |b|
    ensures Distance(a[..i], b[..j]) ==
      if a[i - 1] == b[j - 1] then Distance(a[..i - 1], b[..j - 1])
      else 1 + Min3(Distance(a[..i - 1], b[..j]), Distance(a[..i], b[..j - 1]), Distance(a[..i - 1], b[..j - 1]))
  {
    var x, y := a[..i], b[..j];
    assert x[..i - 1] == a[..i - 1] && y[..j - 1] == b[..j - 1];
  }

  lemma DistanceToEmpty(s: string)
    ensures Distance(s, []) == |s| && Distance([], s) == |s|
  {
  }

  /** The distance from a string to itself is zero. */
  lemma {:induction false} DistanceSelf(s: string)
    ensures Distance(s, s) == 0
    decreases |s|
  {
    if s != [] {
      DistanceSelf(s[..|s| - 1]);
    }
  }

  /** Deleting, inserting and substituting are symmetric, so the distance is too. */
  lemma {:induction false} DistanceSymmetric(a: string, b: string)
    ensures Distance(a, b) == Distance(b, a)
    decreases |a| + |b|
  {
    if |a| > 0 && |b| > 0 {
      DistanceSymmetric(a[..|a| - 1], b[..|b| - 1]);
      if a[|a| - 1] != b[|b| - 1] {
        DistanceSymmetric(a[..|a| - 1], b);
        DistanceSymmetric(a, b[..|b| - 1]);
      }
    }
  }

  /** Substituting position by position and inserting or deleting the rest never needs more than the longer length. */
  lemma {:induction false} DistanceAtMostLonger(a: string, b: string)
    ensures Distance(a, b) <= Max(|a|, |b|)
    decreases |a| + |b|
  {
    if |a| > 0 && |b| > 0 {
      DistanceAtMostLonger(a[..|a| - 1], b[..|b| - 1]);
    }
  }

  /** Every edit changes the length by at most one, so the distance is at least the difference in length. */
  lemma {:induction false} DistanceAtLeastGap(a: string, b: string)
    ensures Distance(a, b) >= |a| - |b| && Distance(a, b) >= |b| - |a|
    decreases |a| + |b|
  {
    if |a| > 0 && |b| > 0 {
      DistanceAtLeastGap(a[..|a| - 1], b[..|b| - 1]);
      if a[|a| - 1] != b[|b| - 1] {
        DistanceAtLeastGap(a[..|a| - 1], b);
        DistanceAtLeastGap(a, b[..|b| - 1]);
      }
    }
  }

  /** `Math.round(100 * num / den)` computed exactly, rounding halves up; a fraction in [0, 1] gives a percentage in [0, 100]. */
  function RoundPercent(num: int, den: int): (r: int)
    requires 0 <= num <= den && den > 0
    ensures 0 <= r <= 100
    ensures 2 * den * r - den <= 200 * num < 2 * den * r + den
  {
    var q := (200 * num + den) / (2 * den);
    assert q * (2 * den) <= 200 * num + den;
    assert 200 * num + den <= 201 * den;
    q
  }

  /** The score of two already lower-cased and trimmed strings. */
  function TrimmedScore(s1: string, s2: string): (r: int)
    ensures 0 <= r <= 100
    ensures s1 == s2 ==> r == 100
  {
    if s1 == s2 then 100
    else
      var maxLength := Max(|s1|, |s2|);
      if maxLength == 0 then 100
      else
        DistanceAtMostLonger(s1, s2);
        RoundPercent(maxLength - Distance(s1, s2), maxLength)
  }

  /**
   * `calculateSimilarity`: 0 when either argument is empty; otherwise both are
   * lower-cased and trimmed, equal forms score 100, and different ones score
   * the rounded percentage `100 * (L - d) / L` of the longer length `L` that
   * the edit distance `d` leaves unchanged.
   */
  function Similarity(str1: string, str2: string): (r: int)
    ensures 0 <= r <= 100
    ensures str1 == [] || str2 == [] ==> r == 0
    ensures str1 != [] && str2 != [] && Trim(Lower(str1)) == Trim(Lower(str2)) ==> r == 100
  {
    if str1 == [] || str2 == [] then 0
    else TrimmedScore(Trim(Lower(str1)), Trim(Lower(str2)))
  }

  lemma TrimmedScoreSymmetric(s1: string, s2: string)
    ensures TrimmedScore(s1, s2) == TrimmedScore(s2, s1)
  {
    if s1 != s2 {
      DistanceSymmetric(s1, s2);
      assert Max(|s1|, |s2|) == Max(|s2|, |s1|);
    }
  }

  /** Neither the normalisation nor the distance depends on argument order. */
  lemma SimilaritySymmetric(a: string, b: string)
    ensures Similarity(a, b) == Similarity(b, a)
  {
    if a != [] && b != [] {
      TrimmedScoreSymmetric(Trim(Lower(a)), Trim(Lower(b)));
    }
  }

  /**
   * Two different lower-cased, trimmed strings score at most the rounded
   * share of the longer length that the shorter one covers: a string less
   * than half as long as the other scores at most 50.
   */
  lemma TrimmedScoreAtMostRatio(s1: string, s2: string)
    requires s1 != s2
    ensures |s1| <= |s2| ==> 2 * |s2| * TrimmedScore(s1, s2) <= 200 * |s1| + |s2|
    ensures 2 * |s1| < |s2| ==> TrimmedScore(s1, s2) <= 50
  {
    if |s1| <= |s2| {
      DistanceAtLeastGap(s1, s2);
      var r, l := TrimmedScore(s1, s2), |s2|;
      assert 2 * l * r <= 200 * |s1| + l;
      if 2 * |s1| < l && r > 50 {
        ProductAtLeast(l, r, 51);
      }
    }
  }

  /** Doubling and multiplying by a non-negative length keeps order. */
  lemma ProductAtLeast(l: int, r: int, k: int)
    requires l >= 0 && r >= k
    ensures 2 * l * r >= 2 * l * k
  {
  }

  /** A non-empty string is fully similar to itself. */
  lemma SimilaritySelf(s: string)
    requires s != []
    ensures Similarity(s, s) == 100
  {
  }
}
