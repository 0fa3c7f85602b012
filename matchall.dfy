/**
 * `findAllMatches` of `src/utils/fuzzyMatch.js`: every candidate found in a
 * block of OCR text, first by a phrase pass over the normalised text and then
 * by a greedy pass over its words, each candidate used at most once, sorted
 * by falling confidence with ties kept in discovery order.
 */
module MatchAll {
  import opened Wrappers
  import opened Text
  import opened SimilarityEngine
  import opened OcrNormalize
  import opened Matching

  /** The confidence of a candidate found whole inside the normalised text. */
  const PHRASE_SCORE: int := 95

  /** The characters the text is split into words at: whitespace, `,` and `.`. */
  predicate IsWordSeparator(c: char)
  {
    IsWhitespace(c) || c == ',' || c == '.'
  }

  /** The pieces longer than two characters, in order. */
  function LongPieces(pieces: seq<string>): (r: seq<string>)
    ensures forall w :: w in r ==> |w| > 2 && w in pieces
    ensures forall w :: w in pieces && |w| > 2 ==> w in r
    decreases |pieces|
  {
    if pieces == [] then []
    else (if |pieces[0]| > 2 then [pieces[0]] else []) + LongPieces(pieces[1..])
  }

  /**
   * The words the token pass compares: the separator-free pieces of the
   * text longer than two characters.
   */
  function Words(text: string): (r: seq<string>)
    ensures forall w :: w in r ==> |w| > 2 && forall k :: 0 <= k < |w| ==> !IsWordSeparator(w[k])
  {
    LongPieces(SplitWhere(text, IsWordSeparator))
  }

  /** The candidate strings already present in `ms`. */
  function Values(ms: seq<Match>): set<string>
  {
    set m | m in ms :: m.value
  }

  /** No candidate string occurs twice in `ms`. */
  predicate DistinctValues(ms: seq<Match>)
  {
    forall i, j :: 0 <= i < j < |ms| ==> ms[i].value != ms[j].value
  }

  lemma ValuesAppend(ms: seq<Match>, m: Match)
    ensures Values(ms + [m]) == Values(ms) + {m.value}
  {
    assert forall x :: x in ms + [m] <==> x in ms || x == m;
  }

  /** Appending a match whose candidate is not yet present keeps the values distinct. */
  lemma DistinctAppend(ms: seq<Match>, m: Match)
    requires DistinctValues(ms) && m.value !in Values(ms)
    ensures DistinctValues(ms + [m])
  {
    forall i | 0 <= i < |ms|
      ensures ms[i].value != m.value
    {
      assert ms[i] in ms;
    }
  }

  /**
   * The phrase pass over the candidates `cs`, in order: a candidate whose
   * normalised form occurs in the normalised text `nt` is recorded at
   * confidence 95, unless an equal candidate already was.
   */
  function PhraseHits(nt: string, cs: seq<string>): seq<Match>
    decreases |cs|
  {
    if cs == [] then []
    else
      var prev := PhraseHits(nt, cs[..|cs| - 1]);
      var c := cs[|cs| - 1];
      if Contains(nt, NormalizeOcrText(c)) && c !in Values(prev) then prev + [Match(c, PHRASE_SCORE)] else prev
  }

  /** A hit of the phrase pass: confidence 95, for a candidate whose normalised form occurs in `nt`. */
  predicate IsPhraseHit(nt: string, m: Match)
  {
    m.confidence == PHRASE_SCORE && Contains(nt, NormalizeOcrText(m.value))
  }

  /** The phrase pass never records a candidate twice. */
  lemma {:induction false} PhraseHitsDistinct(nt: string, cs: seq<string>)
    ensures DistinctValues(PhraseHits(nt, cs))
    decreases |cs|
  {
    if cs != [] {
      var prev := PhraseHits(nt, cs[..|cs| - 1]);
      var c := cs[|cs| - 1];
      PhraseHitsDistinct(nt, cs[..|cs| - 1]);
      if PhraseHits(nt, cs) != prev {
        DistinctAppend(prev, Match(c, PHRASE_SCORE));
      }
    }
  }

  /** One more candidate extends the phrase pass by at most that candidate. */
  lemma PhraseHitsNext(nt: string, cs: seq<string>, i: nat)
    requires i < |cs|
    ensures var prev := PhraseHits(nt, cs[..i]);
      PhraseHits(nt, cs[..i + 1]) ==
        if Contains(nt, NormalizeOcrText(cs[i])) && cs[i] !in Values(prev) then prev + [Match(cs[i], PHRASE_SCORE)] else prev
  {
    assert cs[..i + 1][..i] == cs[..i];
  }

  /** Every match of the phrase pass is a candidate recorded as a phrase hit. */
  lemma {:induction false} PhraseHitsSound(nt: string, cs: seq<string>)
    ensures forall m :: m in PhraseHits(nt, cs) ==> m.value in cs && IsPhraseHit(nt, m)
    decreases |cs|
  {
    if cs != [] {
      var init := cs[..|cs| - 1];
      var prev := PhraseHits(nt, init);
      var c := cs[|cs| - 1];
      PhraseHitsSound(nt, init);
      assert cs == init + [c];
      if Contains(nt, NormalizeOcrText(c)) && c !in Values(prev) {
        assert PhraseHits(nt, cs) == prev + [Match(c, PHRASE_SCORE)];
        assert IsPhraseHit(nt, Match(c, PHRASE_SCORE));
      } else {
        assert PhraseHits(nt, cs) == prev;
      }
      forall m | m in PhraseHits(nt, cs)
        ensures m.value in cs && IsPhraseHit(nt, m)
      {
        if m in prev {
          assert m.value in init;
        }
      }
    }
  }

  /** The candidate at index `j`, when its normalised form occurs in the text, is a phrase hit. */
  lemma {:induction false} PhraseHitsHas(nt: string, cs: seq<string>, j: nat)
    requires j < |cs| && Contains(nt, NormalizeOcrText(cs[j]))
    ensures Match(cs[j], PHRASE_SCORE) in PhraseHits(nt, cs)
    decreases |cs|
  {
    var i := |cs| - 1;
    var prev := PhraseHits(nt, cs[..i]);
    var hit := Match(cs[j], PHRASE_SCORE);
    PhraseHitsNext(nt, cs, i);
    assert cs[..i + 1] == cs;
    assert PhraseHits(nt, cs) == prev || PhraseHits(nt, cs) == prev + [Match(cs[i], PHRASE_SCORE)];
    if j < i {
      assert cs[..i][j] == cs[j];
      PhraseHitsHas(nt, cs[..i], j);
      assert hit in prev;
    } else if cs[i] in Values(prev) {
      assert j == i;
      PhraseHitsSound(nt, cs[..i]);
      var m :| m in prev && m.value == cs[i];
      assert IsPhraseHit(nt, m);
      assert m == hit;
    } else {
      assert j == i;
      assert PhraseHits(nt, cs) == prev + [hit];
    }
  }

  /** No candidate whose normalised form occurs in the text is missed. */
  lemma PhraseHitsComplete(nt: string, cs: seq<string>)
    ensures forall c :: c in cs && Contains(nt, NormalizeOcrText(c)) ==> Match(c, PHRASE_SCORE) in PhraseHits(nt, cs)
  {
    forall c | c in cs && Contains(nt, NormalizeOcrText(c))
      ensures Match(c, PHRASE_SCORE) in PhraseHits(nt, cs)
    {
      var j :| 0 <= j < |cs| && cs[j] == c;
      PhraseHitsHas(nt, cs, j);
    }
  }

  /**
   * The phrase pass records distinct candidates, each a phrase hit, and misses
   * no candidate whose normalised form occurs in the text.
   */
  lemma PhraseHitsFacts(nt: string, cs: seq<string>)
    ensures DistinctValues(PhraseHits(nt, cs))
    ensures forall m :: m in PhraseHits(nt, cs) ==> m.value in cs && IsPhraseHit(nt, m)
    ensures forall c :: c in cs && Contains(nt, NormalizeOcrText(c)) ==> Match(c, PHRASE_SCORE) in PhraseHits(nt, cs)
  {
    PhraseHitsDistinct(nt, cs);
    PhraseHitsSound(nt, cs);
    PhraseHitsComplete(nt, cs);
  }

  /** The similarity of the raw word `w` to every raw candidate, in candidate order. */
  function Sims(w: string, cs: seq<string>): (r: seq<int>)
    ensures |r| == |cs|
    ensures forall j :: 0 <= j < |cs| ==> r[j] == Similarity(w, cs[j])
  {
    seq(|cs|, j requires 0 <= j < |cs| => Similarity(w, cs[j]))
  }

  /** The index of the first candidate not in `used` whose similarity reaches the threshold. */
  function FirstFit(cs: seq<string>, sims: seq<int>, used: set<string>, threshold: int): (r: Option<nat>)
    requires |sims| == |cs|
    ensures r.Some? ==> r.value < |cs| && cs[r.value] !in used && sims[r.value] >= threshold
    ensures r.Some? ==> forall j :: 0 <= j < r.value ==> cs[j] in used || sims[j] < threshold
    ensures r.None? ==> forall j :: 0 <= j < |cs| ==> cs[j] in used || sims[j] < threshold
    decreases |cs|
  {
    if cs == [] then None
    else if cs[0] !in used && sims[0] >= threshold then Some(0)
    else match FirstFit(cs[1..], sims[1..], used, threshold)
      case None => None
      case Some(k) => Some(k + 1)
  }

  /** Index `k` does not fit either, so none of the first `k + 1` does. */
  lemma NoFitExtend(cs: seq<string>, sims: seq<int>, used: set<string>, threshold: int, k: nat)
    requires |sims| == |cs| && k < |cs|
    requires cs[k] in used || sims[k] < threshold
    requires forall j :: 0 <= j < k ==> cs[j] in used || sims[j] < threshold
    ensures forall j :: 0 <= j < k + 1 ==> cs[j] in used || sims[j] < threshold
  {
  }

  /** `FirstFit` finds exactly the first fitting index. */
  lemma FirstFitIs(cs: seq<string>, sims: seq<int>, used: set<string>, threshold: int, k: nat)
    requires |sims| == |cs| && k < |cs|
    requires cs[k] !in used && sims[k] >= threshold
    requires forall j :: 0 <= j < k ==> cs[j] in used || sims[j] < threshold
    ensures FirstFit(cs, sims, used, threshold) == Some(k)
  {
  }

  /**
   * One word of the token pass: the first candidate not used so far whose
   * similarity to the word reaches the threshold is recorded at that
   * similarity; at most one candidate per word.
   */
  function TokenStep(w: string, cs: seq<string>, threshold: int, ms: seq<Match>): seq<Match>
  {
    var sims := Sims(w, cs);
    match FirstFit(cs, sims, Values(ms), threshold)
    case Some(k) => ms + [Match(cs[k], sims[k])]
    case None => ms
  }

  /** The token pass over `words`, in order, continuing from the matches `ms`. */
  function TokenHits(words: seq<string>, cs: seq<string>, threshold: int, ms: seq<Match>): seq<Match>
    decreases |words|
  {
    if words == [] then ms
    else TokenStep(words[|words| - 1], cs, threshold, TokenHits(words[..|words| - 1], cs, threshold, ms))
  }

  /** The token pass over one more word is one more step. */
  lemma TokenHitsSnoc(words: seq<string>, n: nat, cs: seq<string>, threshold: int, ms: seq<Match>)
    requires n < |words|
    ensures TokenHits(words[..n + 1], cs, threshold, ms) == TokenStep(words[n], cs, threshold, TokenHits(words[..n], cs, threshold, ms))
  {
    assert words[..n + 1][..n] == words[..n];
  }

  /** A hit of the token pass: at or above the threshold, at the similarity of one of `words` to the candidate. */
  ghost predicate IsTokenHit(words: seq<string>, threshold: int, m: Match)
  {
    m.confidence >= threshold && exists w :: w in words && Similarity(w, m.value) == m.confidence
  }

  /** The token pass keeps what it started from as a prefix and adds at most one match per word. */
  lemma {:induction false} TokenHitsGrow(words: seq<string>, cs: seq<string>, threshold: int, ms: seq<Match>)
    ensures var r := TokenHits(words, cs, threshold, ms);
      |ms| <= |r| <= |ms| + |words| && r[..|ms|] == ms
    decreases |words|
  {
    if words != [] {
      var n := |words| - 1;
      var prev := TokenHits(words[..n], cs, threshold, ms);
      TokenHitsGrow(words[..n], cs, threshold, ms);
      var r := TokenHits(words, cs, threshold, ms);
      assert r == prev || r[..|prev|] == prev;
    }
  }

  /** The token pass only adds candidates not yet present. */
  lemma {:induction false} TokenHitsDistinct(words: seq<string>, cs: seq<string>, threshold: int, ms: seq<Match>)
    requires DistinctValues(ms)
    ensures DistinctValues(TokenHits(words, cs, threshold, ms))
    decreases |words|
  {
    if words != [] {
      var n := |words| - 1;
      var prev := TokenHits(words[..n], cs, threshold, ms);
      TokenHitsDistinct(words[..n], cs, threshold, ms);
      var sims := Sims(words[n], cs);
      match FirstFit(cs, sims, Values(prev), threshold)
      case Some(k) =>
        DistinctAppend(prev, Match(cs[k], sims[k]));
      case None =>
    }
  }

  /** Every match the token pass adds is a candidate and a token hit. */
  lemma {:induction false} TokenHitsSound(words: seq<string>, cs: seq<string>, threshold: int, ms: seq<Match>)
    ensures var r := TokenHits(words, cs, threshold, ms);
      forall i :: |ms| <= i < |r| ==> r[i].value in cs && IsTokenHit(words, threshold, r[i])
    decreases |words|
  {
    if words != [] {
      var n := |words| - 1;
      var init, w := words[..n], words[n];
      var prev := TokenHits(init, cs, threshold, ms);
      TokenHitsSound(init, cs, threshold, ms);
      TokenHitsGrow(init, cs, threshold, ms);
      forall i | |ms| <= i < |prev|
        ensures IsTokenHit(words, threshold, prev[i])
      {
        TokenHitWiden(init, words, threshold, prev[i]);
      }
      var sims := Sims(w, cs);
      match FirstFit(cs, sims, Values(prev), threshold)
      case Some(k) =>
        var r := prev + [Match(cs[k], sims[k])];
        assert TokenHits(words, cs, threshold, ms) == r;
        assert IsTokenHit(words, threshold, r[|r| - 1]) by {
          assert w in words && Similarity(w, cs[k]) == sims[k];
        }
      case None =>
        assert TokenHits(words, cs, threshold, ms) == prev;
    }
  }

  /**
   * The token pass keeps what it started from as a prefix, adds only
   * candidates not yet present, each a token hit, and adds at most one per
   * word.
   */
  lemma TokenHitsFacts(words: seq<string>, cs: seq<string>, threshold: int, ms: seq<Match>)
    requires DistinctValues(ms)
    ensures var r := TokenHits(words, cs, threshold, ms);
      && |ms| <= |r| <= |ms| + |words| && r[..|ms|] == ms && DistinctValues(r)
      && forall i :: |ms| <= i < |r| ==> r[i].value in cs && IsTokenHit(words, threshold, r[i])
  {
    TokenHitsGrow(words, cs, threshold, ms);
    TokenHitsDistinct(words, cs, threshold, ms);
    TokenHitsSound(words, cs, threshold, ms);
  }

  /** A token hit for some of the words is a token hit for all of them. */
  lemma TokenHitWiden(init: seq<string>, words: seq<string>, threshold: int, m: Match)
    requires |init| <= |words| && init == words[..|init|] && IsTokenHit(init, threshold, m)
    ensures IsTokenHit(words, threshold, m)
  {
    var w :| w in init && Similarity(w, m.value) == m.confidence;
    assert w in words;
  }

  /** Confidences never rise along `ms`. */
  predicate SortedByConfidence(ms: seq<Match>)
    decreases |ms|
  {
    |ms| <= 1 || (ms[0].confidence >= ms[1].confidence && SortedByConfidence(ms[1..]))
  }

  /** In a sorted list, no match is more confident than one before it. */
  lemma {:induction false} SortedPairwise(ms: seq<Match>)
    requires SortedByConfidence(ms)
    ensures forall i, j :: 0 <= i < j < |ms| ==> ms[i].confidence >= ms[j].confidence
    decreases |ms|
  {
    if |ms| > 1 {
      SortedPairwise(ms[1..]);
      forall i, j | 0 <= i < j < |ms|
        ensures ms[i].confidence >= ms[j].confidence
      {
        if i > 0 {
          assert ms[i] == ms[1..][i - 1] && ms[j] == ms[1..][j - 1];
        } else if j > 1 {
          assert ms[1] == ms[1..][0] && ms[j] == ms[1..][j - 1];
        }
      }
    }
  }

  /** The matches of `ms` with confidence `c`, in order. */
  function WithConfidence(ms: seq<Match>, c: int): seq<Match>
    decreases |ms|
  {
    if ms == [] then []
    else (if ms[0].confidence == c then [ms[0]] else []) + WithConfidence(ms[1..], c)
  }

  lemma {:induction false} WithConfidenceAppend(xs: seq<Match>, ys: seq<Match>, c: int)
    ensures WithConfidence(xs + ys, c) == WithConfidence(xs, c) + WithConfidence(ys, c)
    decreases |xs|
  {
    if xs == [] {
      assert xs + ys == ys;
    } else {
      var h := if xs[0].confidence == c then [xs[0]] else [];
      assert (xs + ys)[0] == xs[0];
      assert (xs + ys)[1..] == xs[1..] + ys;
      WithConfidenceAppend(xs[1..], ys, c);
      var a := WithConfidence(xs[1..], c);
      var b := WithConfidence(ys, c);
      assert WithConfidence(xs + ys, c) == h + (a + b);
      assert h + (a + b) == (h + a) + b;
    }
  }

  lemma {:induction false} WithConfidenceNone(ms: seq<Match>, c: int)
    requires forall i :: 0 <= i < |ms| ==> ms[i].confidence != c
    ensures WithConfidence(ms, c) == []
    decreases |ms|
  {
    if ms != [] {
      WithConfidenceNone(ms[1..], c);
    }
  }

  /**
   * Places `x` after every leading match at least as confident as it: in a
   * list sorted by falling confidence, after all matches of equal confidence.
   */
  function Insert(x: Match, ys: seq<Match>): seq<Match>
    decreases |ys|
  {
    if ys == [] then [x]
    else if ys[0].confidence >= x.confidence then [ys[0]] + Insert(x, ys[1..])
    else [x] + ys
  }

  /** Inserting adds `x` and nothing else. */
  lemma {:induction false} InsertPermutes(x: Match, ys: seq<Match>)
    ensures multiset(Insert(x, ys)) == multiset(ys) + multiset{x}
    decreases |ys|
  {
    if ys != [] && ys[0].confidence >= x.confidence {
      InsertPermutes(x, ys[1..]);
      assert ys == [ys[0]] + ys[1..];
    }
  }

  /** Inserting into a sorted list keeps it sorted. */
  lemma {:induction false} InsertSorted(x: Match, ys: seq<Match>)
    requires SortedByConfidence(ys)
    ensures SortedByConfidence(Insert(x, ys))
    ensures Insert(x, ys)[0] == (if ys != [] && ys[0].confidence >= x.confidence then ys[0] else x)
    decreases |ys|
  {
    if ys != [] && ys[0].confidence >= x.confidence {
      InsertSorted(x, ys[1..]);
      assert ([ys[0]] + Insert(x, ys[1..]))[1..] == Insert(x, ys[1..]);
    }
  }

  /** The matches of `[x]` with confidence `c`. */
  function Own(x: Match, c: int): seq<Match>
  {
    if x.confidence == c then [x] else []
  }

  lemma WithConfidenceCons(x: Match, ms: seq<Match>, c: int)
    ensures WithConfidence([x] + ms, c) == Own(x, c) + WithConfidence(ms, c)
  {
    assert ([x] + ms)[1..] == ms;
  }

  /** Inserting into a sorted list places `x` after every match of its own confidence. */
  lemma {:induction false} InsertStable(x: Match, ys: seq<Match>, c: int)
    requires SortedByConfidence(ys)
    ensures WithConfidence(Insert(x, ys), c) == WithConfidence(ys, c) + Own(x, c)
    decreases |ys|
  {
    if ys == [] {
      WithConfidenceCons(x, [], c);
    } else if ys[0].confidence >= x.confidence {
      InsertStable(x, ys[1..], c);
      InsertStablePast(x, ys, c);
    } else {
      InsertStableFront(x, ys, c);
    }
  }

  /** The step of `InsertStable` where `x` moves past the head of `ys`. */
  lemma InsertStablePast(x: Match, ys: seq<Match>, c: int)
    requires ys != [] && ys[0].confidence >= x.confidence
    requires WithConfidence(Insert(x, ys[1..]), c) == WithConfidence(ys[1..], c) + Own(x, c)
    ensures WithConfidence(Insert(x, ys), c) == WithConfidence(ys, c) + Own(x, c)
  {
    var rest := Insert(x, ys[1..]);
    assert Insert(x, ys) == [ys[0]] + rest;
    WithConfidenceCons(ys[0], rest, c);
    WithConfidenceCons(ys[0], ys[1..], c);
    assert [ys[0]] + ys[1..] == ys;
  }

  /** The step of `InsertStable` where `x` goes in front of a sorted `ys` whose head is less confident. */
  lemma InsertStableFront(x: Match, ys: seq<Match>, c: int)
    requires SortedByConfidence(ys) && ys != [] && ys[0].confidence < x.confidence
    ensures WithConfidence(Insert(x, ys), c) == WithConfidence(ys, c) + Own(x, c)
  {
    WithConfidenceCons(x, ys, c);
    if c == x.confidence {
      SortedPairwise(ys);
      WithConfidenceNone(ys, c);
    }
  }

  /**
   * The stable sort by falling confidence (`sort((a, b) => b.confidence -
   * a.confidence)`), as insertion of each match in turn.
   */
  function SortByConfidence(ms: seq<Match>): seq<Match>
    decreases |ms|
  {
    if ms == [] then []
    else Insert(ms[|ms| - 1], SortByConfidence(ms[..|ms| - 1]))
  }

  /** The sort is a permutation. */
  lemma {:induction false} SortPermutes(ms: seq<Match>)
    ensures multiset(SortByConfidence(ms)) == multiset(ms)
    decreases |ms|
  {
    if ms != [] {
      var init, x := ms[..|ms| - 1], ms[|ms| - 1];
      var sorted := SortByConfidence(init);
      assert SortByConfidence(ms) == Insert(x, sorted);
      SortPermutes(init);
      InsertPermutes(x, sorted);
      assert ms == init + [x];
      assert multiset(ms) == multiset(init) + multiset{x};
    }
  }

  /** The result of the sort is sorted by falling confidence. */
  lemma {:induction false} SortSorted(ms: seq<Match>)
    ensures SortedByConfidence(SortByConfidence(ms))
    ensures forall i, j :: 0 <= i < j < |SortByConfidence(ms)| ==>
      SortByConfidence(ms)[i].confidence >= SortByConfidence(ms)[j].confidence
    decreases |ms|
  {
    if ms != [] {
      SortSorted(ms[..|ms| - 1]);
      InsertSorted(ms[|ms| - 1], SortByConfidence(ms[..|ms| - 1]));
    }
    SortedPairwise(SortByConfidence(ms));
  }

  /** The sort is stable: the matches of any one confidence keep their relative order. */
  lemma {:induction false} SortStable(ms: seq<Match>, c: int)
    ensures WithConfidence(SortByConfidence(ms), c) == WithConfidence(ms, c)
    decreases |ms|
  {
    if ms != [] {
      var init := ms[..|ms| - 1];
      var x := ms[|ms| - 1];
      SortStable(init, c);
      SortSorted(init);
      InsertStable(x, SortByConfidence(init), c);
      assert ms == init + [x];
      WithConfidenceAppend(init, [x], c);
      WithConfidenceCons(x, [], c);
      assert [x] + [] == [x];
    }
  }

  /** Prepending a match whose candidate is not yet present keeps the values distinct. */
  lemma DistinctCons(m: Match, ms: seq<Match>)
    requires DistinctValues(ms) && m.value !in Values(ms)
    ensures DistinctValues([m] + ms)
    ensures Values([m] + ms) == Values(ms) + {m.value}
  {
    var r := [m] + ms;
    assert forall x :: x in r <==> x == m || x in ms;
    forall i, j | 0 <= i < j < |r|
      ensures r[i].value != r[j].value
    {
      assert r[j] == ms[j - 1];
      if i > 0 {
        assert r[i] == ms[i - 1];
      } else {
        assert ms[j - 1] in ms;
      }
    }
  }

  /** Inserting a match of a new candidate keeps the values distinct and adds exactly that candidate. */
  lemma {:induction false} InsertDistinct(x: Match, ys: seq<Match>)
    requires DistinctValues(ys) && x.value !in Values(ys)
    ensures DistinctValues(Insert(x, ys))
    ensures Values(Insert(x, ys)) == Values(ys) + {x.value}
    decreases |ys|
  {
    if ys == [] {
      assert forall m :: m in [x] <==> m == x;
    } else if ys[0].confidence >= x.confidence {
      assert ys == [ys[0]] + ys[1..];
      DistinctTail(ys);
      InsertDistinct(x, ys[1..]);
      DistinctCons(ys[0], Insert(x, ys[1..]));
    } else {
      DistinctCons(x, ys);
    }
  }

  /** The tail of a list of distinct values is one too, without its head's value. */
  lemma DistinctTail(ys: seq<Match>)
    requires DistinctValues(ys) && ys != []
    ensures DistinctValues(ys[1..])
    ensures ys[0].value !in Values(ys[1..])
    ensures Values(ys) == Values(ys[1..]) + {ys[0].value}
  {
    assert forall m :: m in ys <==> m == ys[0] || m in ys[1..];
  }

  /** Sorting keeps the set of values and their distinctness. */
  lemma {:induction false} SortDistinct(ms: seq<Match>)
    requires DistinctValues(ms)
    ensures DistinctValues(SortByConfidence(ms))
    ensures Values(SortByConfidence(ms)) == Values(ms)
    decreases |ms|
  {
    if ms != [] {
      var init := ms[..|ms| - 1];
      var x := ms[|ms| - 1];
      assert ms == init + [x];
      assert DistinctValues(init);
      ValuesAppend(init, x);
      SortDistinct(init);
      InsertDistinct(x, SortByConfidence(init));
    }
  }

  /**
   * What `findAllMatches` returns, stated without its loops: nothing for an
   * empty text or no candidates; otherwise the phrase hits, then the token
   * hits, sorted stably by falling confidence.
   */
  function AllMatches(text: string, candidates: seq<string>, threshold: int): seq<Match>
  {
    if text == [] || candidates == [] then []
    else SortByConfidence(Unsorted(text, candidates, threshold))
  }

  /** The phrase hits followed by the token hits, in the order they are found. */
  function Unsorted(text: string, candidates: seq<string>, threshold: int): seq<Match>
  {
    TokenHits(Words(text), candidates, threshold, PhraseHits(NormalizeOcrText(text), candidates))
  }

  /**
   * The first loop of `findAllMatches`: each candidate whose normalised form
   * occurs in the normalised text and is not used yet is recorded at 95 and
   * marked used.
   */
  method PhrasePass(text: string, candidates: seq<string>) returns (matches: seq<Match>, usedCandidates: set<string>)
    ensures matches == PhraseHits(NormalizeOcrText(text), candidates)
    ensures usedCandidates == Values(matches)
  {
    matches := [];
    usedCandidates := {};
    ghost var nt := NormalizeOcrText(text);
    for i := 0 to |candidates|
      invariant matches == PhraseHits(nt, candidates[..i])
      invariant usedCandidates == Values(matches)
    {
      var candidate := candidates[i];
      var normalizedCandidate := NormalizeOcrText(candidate);
      var normalizedText := NormalizeOcrText(text);
      PhraseHitsNext(nt, candidates, i);
      if Contains(normalizedText, normalizedCandidate) && candidate !in usedCandidates {
        ValuesAppend(matches, Match(candidate, PHRASE_SCORE));
        matches := matches + [Match(candidate, PHRASE_SCORE)];
        usedCandidates := usedCandidates + {candidate};
      }
    }
    assert candidates[..|candidates|] == candidates;
  }

  /**
   * `findAllMatches`: a pass over the candidates for whole occurrences in the
   * normalised text, then a pass over the words, each taking the first unused
   * candidate similar enough; the matches are then sorted.
   */
  method FindAllMatches(text: string, candidates: seq<string>, threshold: int) returns (r: seq<Match>)
    ensures r == AllMatches(text, candidates, threshold)
  {
    if text == [] || candidates == [] {
      return [];
    }
    var words := Words(text);
    var matches, usedCandidates := PhrasePass(text, candidates);
    ghost var phrase := matches;
    for wi := 0 to |words|
      invariant matches == TokenHits(words[..wi], candidates, threshold, phrase)
      invariant usedCandidates == Values(matches)
    {
      var word := words[wi];
      TokenHitsSnoc(words, wi, candidates, threshold, phrase);
      ghost var before := matches;
      ghost var sims := Sims(word, candidates);
      ghost var found := false;
      for k := 0 to |candidates|
        invariant matches == before && usedCandidates == Values(before)
        invariant forall j :: 0 <= j < k ==> candidates[j] in usedCandidates || sims[j] < threshold
      {
        var candidate := candidates[k];
        if candidate in usedCandidates {
          NoFitExtend(candidates, sims, usedCandidates, threshold, k);
          continue;
        }
        var similarity := Similarity(word, candidate);
        assert sims[k] == similarity;
        if similarity >= threshold {
          FirstFitIs(candidates, sims, usedCandidates, threshold, k);
          ValuesAppend(matches, Match(candidate, similarity));
          matches := matches + [Match(candidate, similarity)];
          usedCandidates := usedCandidates + {candidate};
          found := true;
          break;
        }
        NoFitExtend(candidates, sims, usedCandidates, threshold, k);
      }
      if !found {
        assert FirstFit(candidates, sims, Values(before), threshold) == None;
      }
      assert matches == TokenStep(word, candidates, threshold, before);
    }
    assert words[..|words|] == words;
    return SortByConfidence(matches);
  }

  /**
   * The result of `findAllMatches` names distinct candidates, is sorted by
   * falling confidence, and lists each confidence's matches in the order
   * they were found.
   */
  lemma AllMatchesShape(text: string, candidates: seq<string>, threshold: int)
    ensures text == [] || candidates == [] ==> AllMatches(text, candidates, threshold) == []
    ensures DistinctValues(AllMatches(text, candidates, threshold))
    ensures var r := AllMatches(text, candidates, threshold);
      forall i, j :: 0 <= i < j < |r| ==> r[i].confidence >= r[j].confidence
    ensures text != [] && candidates != [] ==>
      multiset(AllMatches(text, candidates, threshold)) == multiset(Unsorted(text, candidates, threshold))
      && forall c :: WithConfidence(AllMatches(text, candidates, threshold), c) == WithConfidence(Unsorted(text, candidates, threshold), c)
  {
    if text != [] && candidates != [] {
      var nt := NormalizeOcrText(text);
      var phrase := PhraseHits(nt, candidates);
      PhraseHitsFacts(nt, candidates);
      TokenHitsFacts(Words(text), candidates, threshold, phrase);
      var u := Unsorted(text, candidates, threshold);
      SortPermutes(u);
      SortSorted(u);
      forall c
        ensures WithConfidence(SortByConfidence(u), c) == WithConfidence(u, c)
      {
        SortStable(u, c);
      }
      SortDistinct(u);
    }
  }

  /**
   * Every match of `findAllMatches` is a candidate found either by the phrase
   * pass, at 95, or by the token pass, at or above the threshold and at the
   * similarity of a word longer than two characters.
   */
  lemma AllMatchesSound(text: string, candidates: seq<string>, threshold: int)
    ensures forall m :: m in AllMatches(text, candidates, threshold) ==>
      m.value in candidates &&
      (IsPhraseHit(NormalizeOcrText(text), m) || IsTokenHit(Words(text), threshold, m))
  {
    if text != [] && candidates != [] {
      var nt := NormalizeOcrText(text);
      var phrase := PhraseHits(nt, candidates);
      PhraseHitsFacts(nt, candidates);
      TokenHitsFacts(Words(text), candidates, threshold, phrase);
      var u := Unsorted(text, candidates, threshold);
      SortPermutes(u);
      forall m | m in AllMatches(text, candidates, threshold)
        ensures m.value in candidates &&
          (IsPhraseHit(nt, m) || IsTokenHit(Words(text), threshold, m))
      {
        assert m in multiset(SortByConfidence(u));
        assert m in u;
        var i :| 0 <= i < |u| && u[i] == m;
        if i < |phrase| {
          assert u[..|phrase|] == phrase;
          assert m in phrase;
        }
      }
    }
  }

  /**
   * Every candidate whose normalised form occurs in the normalised text is
   * in the result at confidence 95.
   */
  lemma AllMatchesFindsPhrases(text: string, candidates: seq<string>, threshold: int, c: string)
    requires text != [] && c in candidates
    requires Contains(NormalizeOcrText(text), NormalizeOcrText(c))
    ensures Match(c, PHRASE_SCORE) in AllMatches(text, candidates, threshold)
  {
    var u := Unsorted(text, candidates, threshold);
    PhraseInUnsorted(text, candidates, threshold, c);
    SortPermutes(u);
    assert Match(c, PHRASE_SCORE) in multiset(u);
  }

  /** The phrase hit for such a candidate is among the matches before sorting. */
  lemma PhraseInUnsorted(text: string, candidates: seq<string>, threshold: int, c: string)
    requires c in candidates
    requires Contains(NormalizeOcrText(text), NormalizeOcrText(c))
    ensures Match(c, PHRASE_SCORE) in Unsorted(text, candidates, threshold)
  {
    var nt := NormalizeOcrText(text);
    var phrase := PhraseHits(nt, candidates);
    PhraseHitsFacts(nt, candidates);
    TokenHitsFacts(Words(text), candidates, threshold, phrase);
    var u := Unsorted(text, candidates, threshold);
    var i :| 0 <= i < |phrase| && phrase[i] == Match(c, PHRASE_SCORE);
    assert u[..|phrase|] == phrase;
    assert u[i] == Match(c, PHRASE_SCORE);
  }
}
