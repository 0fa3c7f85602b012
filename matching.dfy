/**
 * `findBestMatch` of `src/utils/fuzzyMatch.js`: the one candidate that best
 * matches a piece of OCR text, with an exact-match short-circuit, a
 * containment bonus and first-wins tie-breaking.
 */
module Matching {
  import opened Wrappers
  import opened Text
  import opened SimilarityEngine
  import opened OcrNormalize

  /** A candidate string with the confidence (0-100) it was matched at. */
  datatype Match = Match(value: string, confidence: int)

  /** The containment bonus: a candidate inside the input, or the input inside it, scores at least this. */
  const CONTAINS_SCORE: int := 85

  /** The normalised form of every candidate, in candidate order. */
  function NormalizeAll(candidates: seq<string>): (r: seq<string>)
    ensures |r| == |candidates|
    ensures forall j :: 0 <= j < |candidates| ==> r[j] == NormalizeOcrText(candidates[j])
  {
    seq(|candidates|, j requires 0 <= j < |candidates| => NormalizeOcrText(candidates[j]))
  }

  /** The score a candidate with normalised form `nc` earns against the normalised input `ni`, bonus included. */
  function Score(ni: string, nc: string): (r: int)
    ensures 0 <= r <= 100
    ensures Contains(ni, nc) || Contains(nc, ni) ==> r >= CONTAINS_SCORE
  {
    var similarity := Similarity(ni, nc);
    if Contains(ni, nc) || Contains(nc, ni) then Max(similarity, CONTAINS_SCORE) else similarity
  }

  /** The index of the first normalised candidate equal to `ni`. */
  function FirstExact(ni: string, ncs: seq<string>): (r: Option<nat>)
    ensures r.Some? ==> r.value < |ncs| && ncs[r.value] == ni
    ensures r.Some? ==> forall j :: 0 <= j < r.value ==> ncs[j] != ni
    ensures r.None? ==> forall j :: 0 <= j < |ncs| ==> ncs[j] != ni
    decreases |ncs|
  {
    if ncs == [] then None
    else if ncs[0] == ni then Some(0)
    else match FirstExact(ni, ncs[1..])
      case None => None
      case Some(k) => Some(k + 1)
  }

  /** `FirstExact` finds exactly the first index holding `ni`. */
  lemma FirstExactIs(ni: string, ncs: seq<string>, k: nat)
    requires k < |ncs| && ncs[k] == ni
    requires forall j :: 0 <= j < k ==> ncs[j] != ni
    ensures FirstExact(ni, ncs) == Some(k)
  {
  }

  /** The score of every normalised candidate, in candidate order. */
  function Scores(ni: string, ncs: seq<string>): (r: seq<int>)
    ensures |r| == |ncs|
    ensures forall j :: 0 <= j < |ncs| ==> r[j] == Score(ni, ncs[j])
  {
    seq(|ncs|, j requires 0 <= j < |ncs| => Score(ni, ncs[j]))
  }

  /** The highest of the scores, and 0 when none is above 0. */
  function MaxScore(scores: seq<int>): (m: int)
    ensures 0 <= m
    ensures forall j :: 0 <= j < |scores| ==> scores[j] <= m
    ensures m == 0 || exists j :: 0 <= j < |scores| && scores[j] == m
    decreases |scores|
  {
    if scores == [] then 0
    else
      var rest := MaxScore(scores[1..]);
      assert forall j :: 1 <= j < |scores| ==> scores[j] == scores[1..][j - 1];
      Max(scores[0], rest)
  }

  /** The index of the first score equal to `m`. */
  function FirstWithScore(scores: seq<int>, m: int): (r: Option<nat>)
    ensures r.Some? ==> r.value < |scores| && scores[r.value] == m
    ensures r.Some? ==> forall j :: 0 <= j < r.value ==> scores[j] != m
    ensures r.None? ==> forall j :: 0 <= j < |scores| ==> scores[j] != m
    decreases |scores|
  {
    if scores == [] then None
    else if scores[0] == m then Some(0)
    else match FirstWithScore(scores[1..], m)
      case None => None
      case Some(k) => Some(k + 1)
  }

  /** A bound that every score stays under and one score reaches is the maximum. */
  lemma MaxScoreIs(scores: seq<int>, m: int)
    requires 0 <= m
    requires forall j :: 0 <= j < |scores| ==> scores[j] <= m
    requires m == 0 || exists j :: 0 <= j < |scores| && scores[j] == m
    ensures MaxScore(scores) == m
  {
  }

  /** `FirstWithScore` finds exactly the first index holding `m`. */
  lemma FirstWithScoreIs(scores: seq<int>, m: int, k: nat)
    requires k < |scores| && scores[k] == m
    requires forall j :: 0 <= j < k ==> scores[j] != m
    ensures FirstWithScore(scores, m) == Some(k)
  {
  }

  /** No entry of `ncs` before `i + 1` equals `ni`, once none before `i` does and `ncs[i]` does not. */
  lemma NoneEqualExtend(ncs: seq<string>, ni: string, i: nat)
    requires i < |ncs| && ncs[i] != ni
    requires forall j :: 0 <= j < i ==> ncs[j] != ni
    ensures forall j :: 0 <= j < i + 1 ==> ncs[j] != ni
  {
  }

  /**
   * The running best of `findBestMatch` after the first `i` scores: `best`
   * bounds them all, and when `found` it is reached first at `index`; when
   * not, it is 0.
   */
  predicate Tracks(scores: seq<int>, i: nat, best: int, index: nat, found: bool)
  {
    && i <= |scores| && 0 <= best
    && (forall j :: 0 <= j < i ==> scores[j] <= best)
    && (found <==> best != 0)
    && (found ==> index < i && scores[index] == best && forall j :: 0 <= j < index ==> scores[j] < best)
  }

  /** Moving to `scores[i]` only when it beats the running best keeps `Tracks`. */
  lemma TracksStep(scores: seq<int>, i: nat, best: int, index: nat, found: bool, best': int, index': nat, found': bool)
    requires i < |scores| && Tracks(scores, i, best, index, found)
    requires scores[i] > best ==> best' == scores[i] && index' == i && found'
    requires scores[i] <= best ==> best' == best && index' == index && found' == found
    ensures Tracks(scores, i + 1, best', index', found')
  {
  }

  /**
   * What `findBestMatch` returns, stated without its loop: nothing for empty
   * input or no candidates; else the first candidate that normalises to the
   * normalised input, at confidence 100; else the earliest candidate with the
   * highest score, provided that score is positive, reaches the threshold, and
   * the candidate is a non-empty string.
   */
  function BestMatch(input: string, candidates: seq<string>, threshold: int): Option<Match>
  {
    if input == [] || candidates == [] then None
    else
      var ni := NormalizeOcrText(input);
      var ncs := NormalizeAll(candidates);
      match FirstExact(ni, ncs)
      case Some(k) => Some(Match(candidates[k], 100))
      case None =>
        var scores := Scores(ni, ncs);
        var best := MaxScore(scores);
        match FirstWithScore(scores, best)
        case Some(k) =>
          if best > 0 && best >= threshold && candidates[k] != [] then Some(Match(candidates[k], best)) else None
        case None => None
  }

  /**
   * `findBestMatch`: one pass over the candidates, returning at the first
   * exact match and otherwise keeping the best score seen so far, replaced
   * only by a strictly greater one.
   */
  method FindBestMatch(input: string, candidates: seq<string>, threshold: int) returns (r: Option<Match>)
    ensures r == BestMatch(input, candidates, threshold)
  {
    if input == [] || candidates == [] {
      return None;
    }
    var normalizedInput := NormalizeOcrText(input);
    ghost var ncs := NormalizeAll(candidates);
    ghost var scores := Scores(normalizedInput, ncs);
    var bestMatch: Option<string> := None;
    var bestScore := 0;
    ghost var bestIndex := 0;
    for i := 0 to |candidates|
      invariant forall j :: 0 <= j < i ==> ncs[j] != normalizedInput
      invariant Tracks(scores, i, bestScore, bestIndex, bestMatch.Some?)
      invariant bestMatch.Some? ==> bestIndex < i && bestMatch.value == candidates[bestIndex]
    {
      var candidate := candidates[i];
      var normalizedCandidate := NormalizeOcrText(candidate);
      assert normalizedCandidate == ncs[i];
      assert scores[i] == Score(normalizedInput, normalizedCandidate);
      if normalizedInput == normalizedCandidate {
        FirstExactIs(normalizedInput, ncs, i);
        return Some(Match(candidate, 100));
      }
      ghost var previousScore, previousIndex, previousFound := bestScore, bestIndex, bestMatch.Some?;
      var similarity := Similarity(normalizedInput, normalizedCandidate);
      if similarity > bestScore {
        bestScore, bestMatch, bestIndex := similarity, Some(candidate), i;
      }
      if Contains(normalizedInput, normalizedCandidate) || Contains(normalizedCandidate, normalizedInput) {
        var containsScore := Max(similarity, CONTAINS_SCORE);
        if containsScore > bestScore {
          bestScore, bestMatch, bestIndex := containsScore, Some(candidate), i;
        }
      }
      NoneEqualExtend(ncs, normalizedInput, i);
      TracksStep(scores, i, previousScore, previousIndex, previousFound, bestScore, bestIndex, bestMatch.Some?);
    }
    assert FirstExact(normalizedInput, ncs).None?;
    MaxScoreIs(scores, bestScore);
    if bestMatch.Some? {
      FirstWithScoreIs(scores, bestScore, bestIndex);
    }
    if bestScore >= threshold && bestMatch.Some? && bestMatch.value != [] {
      return Some(Match(bestMatch.value, bestScore));
    }
    return None;
  }

  /**
   * Whatever `findBestMatch` returns is one of the candidates, confident
   * between 1 and 100, and at or above the threshold unless it is an exact
   * (normalised) match, which wins at 100 whatever the threshold.
   */
  lemma BestMatchSound(input: string, candidates: seq<string>, threshold: int)
    ensures input == [] || candidates == [] ==> BestMatch(input, candidates, threshold) == None
    ensures match BestMatch(input, candidates, threshold)
      case None => true
      case Some(m) =>
        && m.value in candidates
        && 0 < m.confidence <= 100
        && (m.confidence >= threshold || NormalizeOcrText(m.value) == NormalizeOcrText(input))
        && (m.confidence >= threshold || m.confidence == 100)
  {
    if input != [] && candidates != [] {
      var ni := NormalizeOcrText(input);
      var ncs := NormalizeAll(candidates);
      match FirstExact(ni, ncs)
      case Some(k) =>
      case None =>
        var scores := Scores(ni, ncs);
        match FirstWithScore(scores, MaxScore(scores))
        case Some(k) =>
        case None =>
    }
  }

  /**
   * When some candidate normalises to the same text as the input, the result
   * is the first such candidate at confidence 100.
   */
  lemma {:induction false} BestMatchExact(input: string, candidates: seq<string>, threshold: int, k: nat)
    requires input != [] && k < |candidates|
    requires NormalizeOcrText(candidates[k]) == NormalizeOcrText(input)
    requires forall j :: 0 <= j < k ==> NormalizeOcrText(candidates[j]) != NormalizeOcrText(input)
    ensures BestMatch(input, candidates, threshold) == Some(Match(candidates[k], 100))
  {
    var ni := NormalizeOcrText(input);
    var ncs := NormalizeAll(candidates);
    FirstExactIs(ni, ncs, k);
  }

  /** A non-empty input listed among the candidates is always found, at confidence 100. */
  lemma BestMatchSelf(input: string, candidates: seq<string>, threshold: int)
    requires input != [] && input in candidates
    ensures BestMatch(input, candidates, threshold).Some?
    ensures BestMatch(input, candidates, threshold).value.confidence == 100
  {
    var ni := NormalizeOcrText(input);
    var ncs := NormalizeAll(candidates);
    var i :| 0 <= i < |candidates| && candidates[i] == input;
    assert ncs[i] == ni;
  }

  /** `scores[k]` is `m`, no score exceeds `m`, and every score before `k` is below `m`. */
  predicate FirstMaximum(scores: seq<int>, k: nat, m: int)
  {
    && k < |scores| && scores[k] == m
    && (forall j :: 0 <= j < |scores| ==> scores[j] <= m)
    && (forall j :: 0 <= j < k ==> scores[j] < m)
  }

  /**
   * Without an exact match, a result is the first candidate reaching the
   * highest score of any candidate, at that score.
   */
  lemma BestMatchIsBest(input: string, candidates: seq<string>, threshold: int)
    requires input != [] && candidates != []
    requires forall j :: 0 <= j < |candidates| ==> NormalizeOcrText(candidates[j]) != NormalizeOcrText(input)
    ensures BestMatch(input, candidates, threshold).Some? ==>
      var m := BestMatch(input, candidates, threshold).value;
      exists k :: 0 <= k < |candidates| && m.value == candidates[k]
        && FirstMaximum(Scores(NormalizeOcrText(input), NormalizeAll(candidates)), k, m.confidence)
  {
    var ni := NormalizeOcrText(input);
    var ncs := NormalizeAll(candidates);
    var scores := Scores(ni, ncs);
    assert FirstExact(ni, ncs) == None;
    match FirstWithScore(scores, MaxScore(scores))
    case Some(k) =>
      if BestMatch(input, candidates, threshold).Some? {
        assert BestMatch(input, candidates, threshold) == Some(Match(candidates[k], MaxScore(scores)));
        assert FirstMaximum(scores, k, MaxScore(scores));
      }
    case None =>
  }

  /** Without an exact match, when every candidate scores below the threshold there is no result. */
  lemma BestMatchBelowThreshold(input: string, candidates: seq<string>, threshold: int)
    requires forall j :: 0 <= j < |candidates| ==> NormalizeOcrText(candidates[j]) != NormalizeOcrText(input)
    requires forall j :: 0 <= j < |candidates| ==>
      Score(NormalizeOcrText(input), NormalizeOcrText(candidates[j])) < threshold
    ensures BestMatch(input, candidates, threshold) == None
  {
    if input != [] && candidates != [] {
      var ni := NormalizeOcrText(input);
      var ncs := NormalizeAll(candidates);
      var scores := Scores(ni, ncs);
      assert FirstExact(ni, ncs) == None;
      match FirstWithScore(scores, MaxScore(scores))
      case Some(k) =>
      case None =>
    }
  }

  /**
   * Against an input more than twice its length, a candidate that neither
   * contains nor is contained in the input scores at most 50.
   */
  lemma ShortCandidateScore(ni: string, nc: string)
    requires Lower(ni) == ni && IsTrimmed(ni) && Lower(nc) == nc && IsTrimmed(nc)
    requires 2 * |nc| < |ni| && !Contains(ni, nc) && !Contains(nc, ni)
    ensures Score(ni, nc) <= 50
  {
    if nc != [] {
      TrimmedScoreAtMostRatio(nc, ni);
      TrimmedScoreSymmetric(nc, ni);
    }
  }

  /**
   * When the input is more than twice as long as every candidate, as when a
   * whole screenshot's text is matched against the vocabulary, a threshold
   * above 50 is only ever met through the containment bonus: the candidate
   * found occurs in the normalised input.
   */
  lemma LongInputNeedsContainment(input: string, candidates: seq<string>, threshold: int)
    requires threshold > 50
    requires forall j :: 0 <= j < |candidates| ==> 2 * |NormalizeOcrText(candidates[j])| < |NormalizeOcrText(input)|
    ensures BestMatch(input, candidates, threshold).Some? ==>
      var m := BestMatch(input, candidates, threshold).value;
      Contains(NormalizeOcrText(input), NormalizeOcrText(m.value)) && m.confidence >= CONTAINS_SCORE
  {
    var ni := NormalizeOcrText(input);
    NormalizedShape(input);
    if BestMatch(input, candidates, threshold).Some? {
      var m := BestMatch(input, candidates, threshold).value;
      assert forall j :: 0 <= j < |candidates| ==> NormalizeOcrText(candidates[j]) != ni;
      BestMatchIsBest(input, candidates, threshold);
      BestMatchSound(input, candidates, threshold);
      var k :| 0 <= k < |candidates| && m.value == candidates[k]
        && FirstMaximum(Scores(ni, NormalizeAll(candidates)), k, m.confidence);
      var nc := NormalizeOcrText(candidates[k]);
      NormalizedShape(candidates[k]);
      assert Score(ni, nc) == m.confidence;
      ContainsIff(nc, ni);
      assert !Contains(nc, ni);
      if !Contains(ni, nc) {
        ShortCandidateScore(ni, nc);
        assert false;
      }
    }
  }

  /**
   * Input made only of whitespace is not "empty" to `findBestMatch`: it
   * normalises to the empty string, which every candidate contains, so the
   * first candidate wins at the containment score whenever the threshold
   * allows it.
   */
  lemma BlankInputMatchesFirst(input: string, candidates: seq<string>, threshold: int)
    requires input != [] && forall k :: 0 <= k < |input| ==> IsWhitespace(input[k])
    requires candidates != [] && forall j :: 0 <= j < |candidates| ==> NormalizeOcrText(candidates[j]) != []
    requires threshold <= CONTAINS_SCORE
    ensures BestMatch(input, candidates, threshold) == Some(Match(candidates[0], CONTAINS_SCORE))
  {
    BlankNormalizesToEmpty(input);
    var ncs := NormalizeAll(candidates);
    var scores := Scores([], ncs);
    assert FirstExact([], ncs) == None;
    EmptyInputScores(ncs);
    MaxScoreIs(scores, CONTAINS_SCORE);
    FirstWithScoreIs(scores, CONTAINS_SCORE, 0);
    assert candidates[0] != [];
  }

  /** Against the empty normalised input every non-empty candidate earns exactly the containment bonus. */
  lemma EmptyInputScores(ncs: seq<string>)
    requires forall j :: 0 <= j < |ncs| ==> ncs[j] != []
    ensures forall j :: 0 <= j < |ncs| ==> Scores([], ncs)[j] == CONTAINS_SCORE
  {
    forall j | 0 <= j < |ncs|
      ensures Score([], ncs[j]) == CONTAINS_SCORE
    {
      assert IsPrefix([], ncs[j]);
      assert Similarity([], ncs[j]) == 0;
    }
  }

  /** Whitespace normalises to the empty string. */
  lemma BlankNormalizesToEmpty(input: string)
    requires input != [] && forall k :: 0 <= k < |input| ==> IsWhitespace(input[k])
    ensures NormalizeOcrText(input) == []
  {
    assert forall k :: 0 <= k < |input| ==> IsWhitespace(Lower(input)[k]);
    TrimEmptyIff(Lower(input));
  }
}
