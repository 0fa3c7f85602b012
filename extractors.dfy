/**
 * The two line-oriented extractors of `src/utils/fuzzyMatch.js`:
 * `extractPotentialName` (the first line shaped like a name) and
 * `extractSkillLevel` (a skill name followed by a level of one or two
 * digits), with the patterns they test written out as recognisers.
 */
module Extractors {
  import opened Wrappers
  import opened Text

  // ---------------------------------------------------------------------
  // extractPotentialName

  /** The trimmed lines that are not empty, in order (`map(l => l.trim()).filter(l => l.length > 0)`). */
  function NonEmptyTrimmed(lines: seq<string>): (r: seq<string>)
    ensures forall l :: l in r ==> l != [] && IsTrimmed(l)
    decreases |lines|
  {
    if lines == [] then []
    else
      var t := Trim(lines[0]);
      if t != [] then [t] + NonEmptyTrimmed(lines[1..]) else NonEmptyTrimmed(lines[1..])
  }

  /** Every line that is not blank is kept, trimmed. */
  lemma {:induction false} NonEmptyTrimmedKeeps(lines: seq<string>, i: nat)
    requires i < |lines| && Trim(lines[i]) != []
    ensures Trim(lines[i]) in NonEmptyTrimmed(lines)
    decreases |lines|
  {
    var t := Trim(lines[0]);
    if i == 0 {
      assert NonEmptyTrimmed(lines)[0] == t;
    } else {
      var rest := NonEmptyTrimmed(lines[1..]);
      assert lines[1..][i - 1] == lines[i];
      NonEmptyTrimmedKeeps(lines[1..], i - 1);
      if t != [] {
        assert NonEmptyTrimmed(lines) == [t] + rest;
      }
    }
  }

  /** Every kept line is a trimmed line of the input. */
  lemma {:induction false} NonEmptyTrimmedFrom(lines: seq<string>, l: string)
    requires l in NonEmptyTrimmed(lines)
    ensures exists i :: 0 <= i < |lines| && Trim(lines[i]) == l
    decreases |lines|
  {
    var t := Trim(lines[0]);
    var rest := NonEmptyTrimmed(lines[1..]);
    if l != t {
      if t != [] {
        assert NonEmptyTrimmed(lines) == [t] + rest;
      }
      assert l in rest;
      NonEmptyTrimmedFrom(lines[1..], l);
      var i :| 0 <= i < |lines[1..]| && Trim(lines[1..][i]) == l;
      assert lines[1..][i] == lines[i + 1];
    }
  }

  /** Every line that is not blank is kept, trimmed, and every kept line comes from one. */
  lemma NonEmptyTrimmedFacts(lines: seq<string>)
    ensures forall i :: 0 <= i < |lines| && Trim(lines[i]) != [] ==> Trim(lines[i]) in NonEmptyTrimmed(lines)
    ensures forall l :: l in NonEmptyTrimmed(lines) ==> exists i :: 0 <= i < |lines| && Trim(lines[i]) == l
  {
    forall i | 0 <= i < |lines| && Trim(lines[i]) != []
      ensures Trim(lines[i]) in NonEmptyTrimmed(lines)
    {
      NonEmptyTrimmedKeeps(lines, i);
    }
    forall l | l in NonEmptyTrimmed(lines)
      ensures exists i :: 0 <= i < |lines| && Trim(lines[i]) == l
    {
      NonEmptyTrimmedFrom(lines, l);
    }
  }

  /** The lines `extractPotentialName` looks at. */
  function TrimmedLines(text: string): seq<string>
  {
    NonEmptyTrimmed(SplitLines(text))
  }

  /** `/^\d+$/`: one or more ASCII digits and nothing else. */
  predicate AllDigits(line: string)
  {
    |line| > 0 && forall k :: 0 <= k < |line| ==> IsAsciiDigit(line[k])
  }

  /** The characters after the first one in a name: `[a-zåäöA-ZÅÄÖ\s\-']`. */
  predicate IsNameTailChar(c: char)
  {
    IsLetter(c) || IsWhitespace(c) || c == '-' || c == '\''
  }

  /** `/^[A-ZÅÄÖ][a-zåäöA-ZÅÄÖ\s\-']+$/u`: a capital letter followed by at least one name character. */
  predicate LooksLikeName(line: string)
  {
    |line| >= 2 && IsUpperLetter(line[0]) && forall k :: 1 <= k < |line| ==> IsNameTailChar(line[k])
  }

  /** A line `extractPotentialName` accepts: not all digits, 2 to 50 characters, shaped like a name. */
  predicate IsNameLine(line: string)
  {
    !AllDigits(line) && 2 <= |line| <= 50 && LooksLikeName(line)
  }

  /** The index of the first line accepted as a name. */
  function FirstNameLine(lines: seq<string>): (r: Option<nat>)
    ensures r.Some? ==> r.value < |lines| && IsNameLine(lines[r.value])
    ensures r.Some? ==> forall j :: 0 <= j < r.value ==> !IsNameLine(lines[j])
    ensures r.None? ==> forall j :: 0 <= j < |lines| ==> !IsNameLine(lines[j])
    decreases |lines|
  {
    if lines == [] then None
    else if IsNameLine(lines[0]) then Some(0)
    else match FirstNameLine(lines[1..])
      case None => None
      case Some(k) => Some(k + 1)
  }

  /** What `extractPotentialName` returns: the first non-empty trimmed line accepted as a name. */
  function PotentialName(text: string): Option<string>
  {
    if text == [] then None
    else
      var lines := TrimmedLines(text);
      match FirstNameLine(lines)
      case Some(k) => Some(lines[k])
      case None => None
  }

  /** The clean-up applied to an accepted line: `|` and `1` become `l`, `0` becomes `o`, then trim. */
  function Cleanup(line: string): string
  {
    Trim(ReplaceChar(ReplaceChar(ReplaceChar(line, '|', 'l'), '1', 'l'), '0', 'o'))
  }

  /** Replacing a character that does not occur changes nothing. */
  lemma ReplaceAbsent(s: string, from: char, to: char)
    requires forall k :: 0 <= k < |s| ==> s[k] != from
    ensures ReplaceChar(s, from, to) == s
  {
  }

  /**
   * The clean-up is the identity on every line it is applied to: a trimmed
   * name-shaped line holds no `|`, `1` or `0`.
   */
  lemma CleanupKeepsNameLine(line: string)
    requires IsTrimmed(line) && LooksLikeName(line)
    ensures Cleanup(line) == line
  {
    assert forall k :: 0 <= k < |line| ==> line[k] != '|' && line[k] != '1' && line[k] != '0' by {
      forall k | 0 <= k < |line|
        ensures line[k] != '|' && line[k] != '1' && line[k] != '0'
      {
        if k > 0 {
          assert IsNameTailChar(line[k]);
        }
      }
    }
    ReplaceAbsent(line, '|', 'l');
    ReplaceAbsent(line, '1', 'l');
    ReplaceAbsent(line, '0', 'o');
  }

  /**
   * `extractPotentialName`: the first trimmed line that is not all digits,
   * has 2 to 50 characters and is shaped like a name, after clean-up, if the
   * cleaned line still has 2 characters.
   */
  method ExtractPotentialName(text: string) returns (r: Option<string>)
    ensures r == PotentialName(text)
  {
    if text == [] {
      return None;
    }
    var lines := TrimmedLines(text);
    for i := 0 to |lines|
      invariant NoNameLineBefore(lines, i)
    {
      var line := lines[i];
      if AllDigits(line) {
        NoNameLineExtend(lines, i);
        continue;
      }
      if |line| < 2 || |line| > 50 {
        NoNameLineExtend(lines, i);
        continue;
      }
      if LooksLikeName(line) {
        var cleaned := Cleanup(line);
        AcceptLine(lines, i);
        if |cleaned| >= 2 {
          return Some(cleaned);
        }
      }
      NoNameLineExtend(lines, i);
    }
    return None;
  }

  /** No line before `i` is accepted as a name. */
  predicate NoNameLineBefore(lines: seq<string>, i: nat)
    requires i <= |lines|
  {
    forall j :: 0 <= j < i ==> !IsNameLine(lines[j])
  }

  /** The invariant step of the line scan. */
  lemma NoNameLineExtend(lines: seq<string>, i: nat)
    requires i < |lines| && NoNameLineBefore(lines, i) && !IsNameLine(lines[i])
    ensures NoNameLineBefore(lines, i + 1)
  {
  }

  /** A line accepted by the scan is the first name line, and the clean-up leaves it as it is. */
  lemma AcceptLine(lines: seq<string>, i: nat)
    requires i < |lines| && NoNameLineBefore(lines, i) && IsNameLine(lines[i])
    requires forall l :: l in lines ==> IsTrimmed(l)
    ensures Cleanup(lines[i]) == lines[i]
    ensures FirstNameLine(lines) == Some(i)
  {
    assert lines[i] in lines;
    CleanupKeepsNameLine(lines[i]);
    FirstNameLineIs(lines, i);
  }

  /** `FirstNameLine` finds exactly the first accepted line. */
  lemma FirstNameLineIs(lines: seq<string>, k: nat)
    requires k < |lines| && IsNameLine(lines[k])
    requires forall j :: 0 <= j < k ==> !IsNameLine(lines[j])
    ensures FirstNameLine(lines) == Some(k)
  {
  }

  /**
   * A name found is the first trimmed line of the text accepted as a name:
   * no line before it trims to an accepted line. No name is found exactly
   * when no trimmed line is accepted.
   */
  lemma PotentialNameFacts(text: string)
    ensures match PotentialName(text)
      case Some(name) =>
        && IsNameLine(name) && IsTrimmed(name)
        && (exists i :: 0 <= i < |SplitLines(text)| && Trim(SplitLines(text)[i]) == name
              && NoRawNameLineBefore(SplitLines(text), i))
      case None => forall i :: 0 <= i < |SplitLines(text)| ==> !IsNameLine(Trim(SplitLines(text)[i]))
  {
    if text != [] {
      var raw := SplitLines(text);
      var lines := TrimmedLines(text);
      assert lines == NonEmptyTrimmed(raw);
      match FirstNameLine(lines)
      case Some(k) =>
        assert lines[k] in lines;
        NameLineFrom(raw, k);
        assert PotentialName(text) == Some(lines[k]);
      case None =>
        NoNameLineFrom(raw);
        assert PotentialName(text) == None;
    } else {
      assert SplitLines(text) == [[]];
    }
  }

  /** No line of `raw` before index `i` trims to a name line. */
  predicate NoRawNameLineBefore(raw: seq<string>, i: nat)
    requires i <= |raw|
  {
    forall j :: 0 <= j < i ==> !IsNameLine(Trim(raw[j]))
  }

  /**
   * The `k`th kept line, when no kept line before it is a name line, is the
   * trim of an input line no earlier line of which trims to a name line.
   */
  lemma {:induction false} NameLineFrom(raw: seq<string>, k: nat)
    requires k < |NonEmptyTrimmed(raw)| && NoNameLineBefore(NonEmptyTrimmed(raw), k)
    ensures exists i :: 0 <= i < |raw| && Trim(raw[i]) == NonEmptyTrimmed(raw)[k] && NoRawNameLineBefore(raw, i)
    decreases |raw|
  {
    var lines := NonEmptyTrimmed(raw);
    var t := Trim(raw[0]);
    var rest := NonEmptyTrimmed(raw[1..]);
    if t != [] && k == 0 {
      assert lines[0] == t;
      assert Trim(raw[0]) == lines[k] && NoRawNameLineBefore(raw, 0);
    } else {
      var k' := if t != [] then k - 1 else k;
      KeptTail(raw, k);
      NameLineFrom(raw[1..], k');
      var i :| 0 <= i < |raw[1..]| && Trim(raw[1..][i]) == rest[k'] && NoRawNameLineBefore(raw[1..], i);
      NoRawNameLineBeforeCons(raw, i);
      assert Trim(raw[i + 1]) == lines[k];
    }
  }

  /**
   * Past the first input line, the `k`th kept line is the `k - 1`th kept
   * line of the rest when the first line is kept, and the `k`th otherwise;
   * the first line does not trim to a name line, and the kept lines of the
   * rest before that index are not name lines.
   */
  lemma KeptTail(raw: seq<string>, k: nat)
    requires k < |NonEmptyTrimmed(raw)| && NoNameLineBefore(NonEmptyTrimmed(raw), k)
    requires Trim(raw[0]) != [] ==> k > 0
    ensures var k' := if Trim(raw[0]) != [] then k - 1 else k;
      && k' < |NonEmptyTrimmed(raw[1..])|
      && NonEmptyTrimmed(raw[1..])[k'] == NonEmptyTrimmed(raw)[k]
      && NoNameLineBefore(NonEmptyTrimmed(raw[1..]), k')
    ensures !IsNameLine(Trim(raw[0]))
  {
    var lines := NonEmptyTrimmed(raw);
    var t := Trim(raw[0]);
    var rest := NonEmptyTrimmed(raw[1..]);
    if t != [] {
      assert lines == [t] + rest;
      assert lines[0] == t;
      forall j | 0 <= j < k - 1
        ensures !IsNameLine(rest[j])
      {
        assert rest[j] == lines[j + 1];
      }
    } else {
      assert lines == rest;
    }
  }

  /** A line that does not trim to a name line, followed by lines none of which before `i` does. */
  lemma NoRawNameLineBeforeCons(raw: seq<string>, i: nat)
    requires 0 < |raw| && i < |raw| - 1
    requires !IsNameLine(Trim(raw[0])) && NoRawNameLineBefore(raw[1..], i)
    ensures NoRawNameLineBefore(raw, i + 1)
  {
    forall j | 0 < j < i + 1
      ensures !IsNameLine(Trim(raw[j]))
    {
      assert raw[j] == raw[1..][j - 1];
    }
  }

  /** When no kept line is a name line, no trimmed line of the input is. */
  lemma NoNameLineFrom(raw: seq<string>)
    requires forall j :: 0 <= j < |NonEmptyTrimmed(raw)| ==> !IsNameLine(NonEmptyTrimmed(raw)[j])
    ensures forall i :: 0 <= i < |raw| ==> !IsNameLine(Trim(raw[i]))
  {
    var lines := NonEmptyTrimmed(raw);
    forall i | 0 <= i < |raw|
      ensures !IsNameLine(Trim(raw[i]))
    {
      if Trim(raw[i]) != [] {
        NonEmptyTrimmedKeeps(raw, i);
        var j :| 0 <= j < |lines| && lines[j] == Trim(raw[i]);
      }
    }
  }

  // ---------------------------------------------------------------------
  // extractSkillLevel: the pattern /([A-Za-zåäöÅÄÖ\s]+)[:\s]+(\d{1,2})/i

  /** The first group's class `[A-Za-zåäöÅÄÖ\s]` (the `i` flag adds nothing to it). */
  predicate IsSkillNameChar(c: char)
  {
    IsLetter(c) || IsWhitespace(c)
  }

  /** The separator class `[:\s]`. */
  predicate IsSkillSepChar(c: char)
  {
    c == ':' || IsWhitespace(c)
  }

  /** The end of the longest run of characters satisfying `p` from position `i`. */
  function RunEnd(s: string, i: nat, p: char -> bool): (j: nat)
    requires i <= |s|
    ensures i <= j <= |s|
    ensures forall k :: i <= k < j ==> p(s[k])
    ensures j == |s| || !p(s[j])
    decreases |s| - i
  {
    if i < |s| && p(s[i]) then RunEnd(s, i + 1, p) else i
  }

  /** `s[p..e]` is a non-empty run of name characters. */
  predicate NameSpan(s: string, p: int, e: int)
  {
    0 <= p < e <= |s| && forall k :: p <= k < e ==> IsSkillNameChar(s[k])
  }

  /** `s[e..f]` is a non-empty run of separators. */
  predicate SepSpan(s: string, e: int, f: int)
  {
    0 <= e < f <= |s| && forall k :: e <= k < f ==> IsSkillSepChar(s[k])
  }

  /** `s[f..g]` is one or two ASCII digits. */
  predicate DigitsSpan(s: string, f: int, g: int)
  {
    0 <= f < g <= |s| && g - f <= 2 && forall k :: f <= k < g ==> IsAsciiDigit(s[k])
  }

  /**
   * An occurrence of the whole pattern: the name group is `s[p..e]`, the
   * separators `s[e..f]`, the level group `s[f..g]`.
   */
  predicate IsSkillMatch(s: string, p: int, e: int, f: int, g: int)
  {
    NameSpan(s, p, e) && SepSpan(s, e, f) && DigitsSpan(s, f, g)
  }

  /** Where the groups of a match start and end. */
  datatype Capture = Capture(start: nat, nameEnd: nat, sepEnd: nat, end: nat)

  /**
   * Of two ways to split a match at the same start, the one backtracking
   * tries first: the later name end, then the later separator end, then
   * the later digit end.
   */
  predicate Prefers(c: Capture, e: int, f: int, g: int)
  {
    e < c.nameEnd || (e == c.nameEnd && (f < c.sepEnd || (f == c.sepEnd && g <= c.end)))
  }

  /** `\d{1,2}` at `f`, greedily: the end of two digits if there are two, of one if there is one. */
  function DigitsEnd(s: string, f: nat): (r: Option<nat>)
    requires f <= |s|
    ensures r.Some? ==> DigitsSpan(s, f, r.value) && forall g :: DigitsSpan(s, f, g) ==> g <= r.value
    ensures r.None? ==> forall g :: !DigitsSpan(s, f, g)
  {
    if f < |s| && IsAsciiDigit(s[f]) then
      if f + 1 < |s| && IsAsciiDigit(s[f + 1]) then Some(f + 2) else Some(f + 1)
    else None
  }

  /**
   * Backtracking over the separator end, from `f` down to just after `e`,
   * taking the digits greedily at each: the first separator end that is
   * followed by a digit.
   */
  function TrySeparators(s: string, e: nat, f: nat): (r: Option<(nat, nat)>)
    requires e < f <= |s|
    ensures r.Some? ==> e < r.value.0 <= f && DigitsSpan(s, r.value.0, r.value.1)
    ensures r.Some? ==> forall g :: DigitsSpan(s, r.value.0, g) ==> g <= r.value.1
    ensures r.Some? ==> forall f', g :: r.value.0 < f' <= f ==> !DigitsSpan(s, f', g)
    ensures r.None? ==> forall f', g :: e < f' <= f ==> !DigitsSpan(s, f', g)
    decreases f - e
  {
    match DigitsEnd(s, f)
    case Some(g) => Some((f, g))
    case None => if f - 1 > e then TrySeparators(s, e, f - 1) else None
  }

  /** Every separator run from `e` ends at or before the longest one. */
  lemma SepRunBound(s: string, e: nat)
    requires e <= |s|
    ensures forall f :: SepSpan(s, e, f) ==> f <= RunEnd(s, e, IsSkillSepChar)
  {
    var j := RunEnd(s, e, IsSkillSepChar);
    forall f | SepSpan(s, e, f)
      ensures f <= j
    {
    }
  }

  /** Every name run from `p` ends at or before the longest one. */
  lemma NameRunBound(s: string, p: nat)
    requires p <= |s|
    ensures forall e :: NameSpan(s, p, e) ==> e <= RunEnd(s, p, IsSkillNameChar)
  {
    var j := RunEnd(s, p, IsSkillNameChar);
    forall e | NameSpan(s, p, e)
      ensures e <= j
    {
    }
  }

  /**
   * The separators and digits after a name ending at `e`, as backtracking
   * finds them: the longest separator run followed by digits, and the
   * longest digits there.
   */
  function AfterName(s: string, e: nat): (r: Option<(nat, nat)>)
    requires e <= |s|
    ensures r.Some? ==> SepSpan(s, e, r.value.0) && DigitsSpan(s, r.value.0, r.value.1)
    ensures r.Some? ==> forall f, g :: SepSpan(s, e, f) && DigitsSpan(s, f, g) ==>
      f < r.value.0 || (f == r.value.0 && g <= r.value.1)
    ensures r.None? ==> forall f, g :: SepSpan(s, e, f) ==> !DigitsSpan(s, f, g)
  {
    SepRunBound(s, e);
    var f0 := RunEnd(s, e, IsSkillSepChar);
    if f0 > e then TrySeparators(s, e, f0) else None
  }

  /**
   * Backtracking over the name end, from `e` down to just after `p`: the
   * first name end after which separators and digits follow.
   */
  function TryNameEnds(s: string, p: nat, e: nat): (r: Option<Capture>)
    requires NameSpan(s, p, e)
    ensures r.Some? ==>
      r.value.start == p && r.value.nameEnd <= e && IsSkillMatch(s, p, r.value.nameEnd, r.value.sepEnd, r.value.end)
    ensures r.Some? ==> forall e', f, g :: e' <= e && IsSkillMatch(s, p, e', f, g) ==> Prefers(r.value, e', f, g)
    ensures r.None? ==> forall e', f, g :: e' <= e ==> !IsSkillMatch(s, p, e', f, g)
    decreases e - p
  {
    match AfterName(s, e)
    case Some((f, g)) => Some(Capture(p, e, f, g))
    case None => if e - 1 > p then TryNameEnds(s, p, e - 1) else None
  }

  /** The match backtracking finds when the pattern is tried at position `p`. */
  function MatchAt(s: string, p: nat): (r: Option<Capture>)
    requires p <= |s|
    ensures r.Some? ==> r.value.start == p && IsSkillMatch(s, p, r.value.nameEnd, r.value.sepEnd, r.value.end)
    ensures r.Some? ==> forall e, f, g :: IsSkillMatch(s, p, e, f, g) ==> Prefers(r.value, e, f, g)
    ensures r.None? ==> forall e, f, g :: !IsSkillMatch(s, p, e, f, g)
  {
    NameRunBound(s, p);
    var e0 := RunEnd(s, p, IsSkillNameChar);
    if e0 > p then TryNameEnds(s, p, e0) else None
  }

  /** The leftmost match starting at or after `p`. */
  function SearchFrom(s: string, p: nat): (r: Option<Capture>)
    requires p <= |s|
    ensures r.Some? ==> p <= r.value.start && IsSkillMatch(s, r.value.start, r.value.nameEnd, r.value.sepEnd, r.value.end)
    ensures r.Some? ==> forall e, f, g :: IsSkillMatch(s, r.value.start, e, f, g) ==> Prefers(r.value, e, f, g)
    ensures r.Some? ==> forall q, e, f, g :: p <= q < r.value.start ==> !IsSkillMatch(s, q, e, f, g)
    ensures r.None? ==> forall q, e, f, g :: p <= q ==> !IsSkillMatch(s, q, e, f, g)
    decreases |s| - p
  {
    if p == |s| then None
    else match MatchAt(s, p)
      case Some(c) => Some(c)
      case None => SearchFrom(s, p + 1)
  }

  /** `text.match(/([A-Za-zåäöÅÄÖ\s]+)[:\s]+(\d{1,2})/i)`: the leftmost match, split as backtracking splits it. */
  function SkillPatternMatch(s: string): Option<Capture>
  {
    SearchFrom(s, 0)
  }

  /**
   * The match found is pinned down by the pattern alone: a split that
   * occurs, with no occurrence starting earlier and no other split at the
   * same start preferred to it, is the one found.
   */
  lemma SkillPatternMatchIs(s: string, p: nat, e: nat, f: nat, g: nat)
    requires IsSkillMatch(s, p, e, f, g)
    requires forall q, e', f', g' :: q < p ==> !IsSkillMatch(s, q, e', f', g')
    requires forall e', f', g' :: IsSkillMatch(s, p, e', f', g') ==> Prefers(Capture(p, e, f, g), e', f', g')
    ensures SkillPatternMatch(s) == Some(Capture(p, e, f, g))
  {
    var r := SearchFrom(s, 0);
    assert r.Some?;
    var c := r.value;
    assert c.start == p;
    assert Prefers(c, e, f, g);
    assert Prefers(Capture(p, e, f, g), c.nameEnd, c.sepEnd, c.end);
  }

  /** The value of an ASCII digit. */
  function DigitValue(c: char): nat
    requires IsAsciiDigit(c)
  {
    c as int - '0' as int
  }

  /** `parseInt(d, 10)` of a string of ASCII digits. */
  function DecimalValue(d: string): (r: nat)
    requires forall k :: 0 <= k < |d| ==> IsAsciiDigit(d[k])
    ensures |d| == 1 ==> r == DigitValue(d[0])
    ensures |d| == 2 ==> r == 10 * DigitValue(d[0]) + DigitValue(d[1])
    decreases |d|
  {
    if d == [] then 0 else 10 * DecimalValue(d[..|d| - 1]) + DigitValue(d[|d| - 1])
  }

  /** A skill name with its level, as `extractSkillLevel` returns it. */
  datatype SkillLevel = SkillLevel(name: string, level: int)

  /**
   * `extractSkillLevel`: the trimmed first group and the value of the second
   * group of the leftmost match, provided the level is 1 to 15 and the name
   * longer than two characters.
   */
  function ExtractSkillLevel(text: string): (r: Option<SkillLevel>)
    ensures r.Some? ==> 1 <= r.value.level <= 15 && |r.value.name| > 2 && IsTrimmed(r.value.name)
    ensures r.Some? ==> forall k :: 0 <= k < |r.value.name| ==> IsSkillNameChar(r.value.name[k])
    ensures r.Some? ==> exists k :: OccursAt(text, r.value.name, k)
  {
    match SkillPatternMatch(text)
    case None => None
    case Some(c) =>
      CaptureFacts(text, c);
      var name := Trim(text[c.start..c.nameEnd]);
      var level := DecimalValue(text[c.sepEnd..c.end]);
      if 1 <= level <= 15 && |name| > 2 then Some(SkillLevel(name, level)) else None
  }

  /** The groups of the match found: a level group of one or two digits, and a trimmed name group of name characters that occurs in the text. */
  lemma CaptureFacts(text: string, c: Capture)
    requires SkillPatternMatch(text) == Some(c)
    ensures c.start <= c.nameEnd <= c.sepEnd <= c.end <= |text|
    ensures forall k :: 0 <= k < |text[c.sepEnd..c.end]| ==> IsAsciiDigit(text[c.sepEnd..c.end][k])
    ensures var name := Trim(text[c.start..c.nameEnd]);
      && (forall k :: 0 <= k < |name| ==> IsSkillNameChar(name[k]))
      && exists k :: OccursAt(text, name, k)
  {
    assert IsSkillMatch(text, c.start, c.nameEnd, c.sepEnd, c.end);
    NameInText(text, c.start, c.nameEnd, Trim(text[c.start..c.nameEnd]));
  }

  /** A piece of a slice is a slice of the whole. */
  lemma OccursInSlice(s: string, p: nat, e: nat, t: string, j: int)
    requires p <= e <= |s| && OccursAt(s[p..e], t, j)
    ensures OccursAt(s, t, p + j)
  {
    forall k | 0 <= k < |t|
      ensures t[k] == s[p + j + k]
    {
      assert t[k] == s[p..e][j + k];
    }
    assert t == s[p + j..p + j + |t|];
  }

  /** The trimmed name group lies in the text and holds name characters only. */
  lemma NameInText(text: string, p: nat, e: nat, name: string)
    requires NameSpan(text, p, e) && name == Trim(text[p..e])
    ensures forall k :: 0 <= k < |name| ==> IsSkillNameChar(name[k])
    ensures exists k :: OccursAt(text, name, k)
  {
    TrimWithin(text, p, e, name);
    var q :| p <= q && q + |name| <= e && OccursAt(text, name, q);
    NameCharsWithin(text, p, e, q, name);
  }

  /** The trim of `s[p..e]` occurs in `s` between `p` and `e`. */
  lemma TrimWithin(s: string, p: nat, e: nat, name: string)
    requires p <= e <= |s| && name == Trim(s[p..e])
    ensures exists q :: p <= q && q + |name| <= e && OccursAt(s, name, q)
  {
    var j :| OccursAt(s[p..e], name, j);
    OccursInSlice(s, p, e, name, j);
  }

  /** A piece of a run of name characters is made of name characters. */
  lemma NameCharsWithin(text: string, p: nat, e: nat, q: nat, name: string)
    requires NameSpan(text, p, e) && p <= q && q + |name| <= e && OccursAt(text, name, q)
    ensures forall k :: 0 <= k < |name| ==> IsSkillNameChar(name[k])
  {
    forall k | 0 <= k < |name|
      ensures IsSkillNameChar(name[k])
    {
      assert name[k] == text[q + k];
    }
  }

  /** The result for a match whose name group is already trimmed and long enough and whose level is in range. */
  lemma ExtractSkillLevelOf(text: string, c: Capture, level: int)
    requires SkillPatternMatch(text) == Some(c)
    requires IsTrimmed(text[c.start..c.nameEnd]) && c.nameEnd - c.start > 2
    requires DecimalValue(text[c.sepEnd..c.end]) == level && 1 <= level <= 15
    ensures ExtractSkillLevel(text) == Some(SkillLevel(text[c.start..c.nameEnd], level))
  {
  }

  /** A word of letters has no whitespace to trim. */
  lemma LettersTrimmed(w: string)
    requires forall k :: 0 <= k < |w| ==> IsLetter(w[k])
    ensures IsTrimmed(w)
  {
    if w != [] {
      assert IsLetter(w[0]) && IsLetter(w[|w| - 1]);
    }
  }

  /** A match whose level group is not 1 to 15 gives nothing: no later match is tried. */
  lemma ExtractSkillLevelOutOfRange(text: string, c: Capture)
    requires SkillPatternMatch(text) == Some(c)
    requires c.sepEnd <= c.end <= |text|
    requires !(1 <= DecimalValue(text[c.sepEnd..c.end]) <= 15)
    ensures ExtractSkillLevel(text) == None
  {
  }

  /**
   * A line made of a name of letters, a run of separators and one or two
   * digits splits as expected: the name group is the name, the separators
   * are the run and the level group is the digits. The run must not start
   * with whitespace when it is longer than one character, since the name
   * group would otherwise keep that whitespace.
   */
  lemma SkillSplit(s: string, w: string, sep: string, d: string, rest: string)
    requires s == w + sep + d + rest
    requires w != [] && forall k :: 0 <= k < |w| ==> IsLetter(w[k])
    requires sep != [] && forall k :: 0 <= k < |sep| ==> IsSkillSepChar(sep[k])
    requires |sep| == 1 || !IsSkillNameChar(sep[0])
    requires 1 <= |d| <= 2 && forall k :: 0 <= k < |d| ==> IsAsciiDigit(d[k])
    requires |d| == 1 && rest != [] ==> !IsAsciiDigit(rest[0])
    ensures SkillPatternMatch(s) == Some(Capture(0, |w|, |w| + |sep|, |w| + |sep| + |d|))
  {
    var n, m, g := |w|, |w| + |sep|, |w| + |sep| + |d|;
    assert forall k :: 0 <= k < n ==> s[k] == w[k];
    assert forall k :: n <= k < m ==> s[k] == sep[k - n];
    assert forall k :: m <= k < g ==> s[k] == d[k - m];
    assert g < |s| ==> s[g] == rest[0];
    assert IsSkillMatch(s, 0, n, m, g);
    assert IsSkillNameChar(s[n]) ==> m == n + 1;
    assert !IsSkillNameChar(s[m]) && !IsSkillSepChar(s[m]);
    assert g < |s| && g - m < 2 ==> !IsAsciiDigit(s[g]);
    forall e, f, h | IsSkillMatch(s, 0, e, f, h)
      ensures Prefers(Capture(0, n, m, g), e, f, h)
    {
      if e > n {
        assert false;
      } else if e == n && f > m {
        assert false;
      } else if e == n && f == m && h > g {
        assert false;
      }
    }
    SkillPatternMatchIs(s, 0, n, m, g);
  }

  /**
   * `extractSkillLevel` of such a line: the name with the value of the
   * digits when that value is 1 to 15 and the name has more than two
   * letters, and nothing otherwise.
   */
  lemma SkillLineLevel(s: string, w: string, sep: string, d: string, rest: string)
    requires s == w + sep + d + rest
    requires |w| > 2 && forall k :: 0 <= k < |w| ==> IsLetter(w[k])
    requires sep != [] && forall k :: 0 <= k < |sep| ==> IsSkillSepChar(sep[k])
    requires |sep| == 1 || !IsSkillNameChar(sep[0])
    requires 1 <= |d| <= 2 && forall k :: 0 <= k < |d| ==> IsAsciiDigit(d[k])
    requires |d| == 1 && rest != [] ==> !IsAsciiDigit(rest[0])
    ensures 1 <= DecimalValue(d) <= 15 ==> ExtractSkillLevel(s) == Some(SkillLevel(w, DecimalValue(d)))
    ensures !(1 <= DecimalValue(d) <= 15) ==> ExtractSkillLevel(s) == None
  {
    SkillSplit(s, w, sep, d, rest);
    var c := Capture(0, |w|, |w| + |sep|, |w| + |sep| + |d|);
    assert s[c.start..c.nameEnd] == w;
    assert s[c.sepEnd..c.end] == d;
    LettersTrimmed(w);
    if 1 <= DecimalValue(d) <= 15 {
      ExtractSkillLevelOf(s, c, DecimalValue(d));
    } else {
      ExtractSkillLevelOutOfRange(s, c);
    }
  }

  /** A colon separator: `"Cooking: 7"` gives Cooking at level 7. */
  lemma ExtractSkillLevelColon(s: string)
    requires s == "Cooking: 7"
    ensures ExtractSkillLevel(s) == Some(SkillLevel("Cooking", 7))
  {
    SkillLineLevel(s, "Cooking", ": ", "7", "");
  }

  /**
   * With a space for separator the name group first takes the space too and
   * has to give it back: `"Cooking 7"` gives Cooking at level 7.
   */
  lemma ExtractSkillLevelSpace(s: string)
    requires s == "Cooking 7"
    ensures ExtractSkillLevel(s) == Some(SkillLevel("Cooking", 7))
  {
    SkillLineLevel(s, "Cooking", " ", "7", "");
  }

  /** The level group takes at most two digits: `"Cooking: 123"` gives Cooking at level 12. */
  lemma ExtractSkillLevelLong(s: string)
    requires s == "Cooking: 123"
    ensures ExtractSkillLevel(s) == Some(SkillLevel("Cooking", 12))
  {
    SkillLineLevel(s, "Cooking", ": ", "12", "3");
  }

  /** A level above 15 is refused, and no later match is tried: `"Cooking: 16"` gives nothing. */
  lemma ExtractSkillLevelTooHigh(s: string)
    requires s == "Cooking: 16"
    ensures ExtractSkillLevel(s) == None
  {
    SkillLineLevel(s, "Cooking", ": ", "16", "");
  }

  /** Level 0 is refused: `"Cooking: 0"` gives nothing. */
  lemma ExtractSkillLevelZero(s: string)
    requires s == "Cooking: 0"
    ensures ExtractSkillLevel(s) == None
  {
    SkillLineLevel(s, "Cooking", ": ", "0", "");
  }

  /** A skill level is only ever found in a text holding an ASCII digit. */
  lemma {:induction false} SkillLevelNeedsDigit(text: string)
    ensures ExtractSkillLevel(text).Some? ==> exists k :: 0 <= k < |text| && IsAsciiDigit(text[k])
  {
    match SkillPatternMatch(text)
    case None =>
    case Some(c) =>
      assert IsAsciiDigit(text[c.sepEnd]);
  }

  /**
   * A purely numeric line is skipped and the name line after it is taken:
   * `"123\nMaja Andersson\n"` gives `Maja Andersson`.
   */
  lemma PotentialNameSkipsNumbers(first: string, second: string)
    requires AllDigits(first)
    requires IsNameLine(second) && IsTrimmed(second) && '\n' !in second
    ensures PotentialName(first + "\n" + second + "\n") == Some(second)
  {
    var text := first + "\n" + second + "\n";
    DigitLine(first);
    TwoTrimmedLines(text, first, second);
    PotentialNameFromLines(text, [first, second], 1);
  }

  /** A line of digits is a non-empty trimmed line without newlines that is not accepted as a name. */
  lemma DigitLine(line: string)
    requires AllDigits(line)
    ensures line != [] && IsTrimmed(line) && '\n' !in line && !IsNameLine(line)
  {
    assert line[0] in line;
  }

  /** Two trimmed non-empty lines, each ended by a newline, are the text's trimmed lines. */
  lemma TwoTrimmedLines(text: string, first: string, second: string)
    requires first != [] && IsTrimmed(first) && '\n' !in first
    requires second != [] && IsTrimmed(second) && '\n' !in second
    requires text == first + "\n" + second + "\n"
    ensures text != [] && TrimmedLines(text) == [first, second]
  {
    TwoLines(text, first, second);
    TrimmedPieces(first, second);
  }

  /** A non-empty text yields the first accepted line among its trimmed lines. */
  lemma PotentialNameFromLines(text: string, lines: seq<string>, k: nat)
    requires text != [] && TrimmedLines(text) == lines
    requires k < |lines| && IsNameLine(lines[k])
    requires forall j :: 0 <= j < k ==> !IsNameLine(lines[j])
    ensures PotentialName(text) == Some(lines[k])
  {
    FirstNameLineIs(lines, k);
  }

  /** Two trimmed non-empty lines and an empty one keep the two. */
  lemma TrimmedPieces(a: string, b: string)
    requires a != [] && b != [] && IsTrimmed(a) && IsTrimmed(b)
    ensures NonEmptyTrimmed([a, b, []]) == [a, b]
  {
    var empty: string := [];
    var none: seq<string> := [];
    NonEmptyTrimmedCons(empty, none);
    NonEmptyTrimmedCons(b, [empty]);
    NonEmptyTrimmedCons(a, [b, empty]);
    assert [empty] == [empty] + none && [b, empty] == [b] + [empty] && [a, b, empty] == [a] + [b, empty];
  }

  /** Keeping the non-blank trimmed lines of a line followed by more lines. */
  lemma NonEmptyTrimmedCons(l: string, rest: seq<string>)
    ensures NonEmptyTrimmed([l] + rest) == (if Trim(l) != [] then [Trim(l)] else []) + NonEmptyTrimmed(rest)
  {
    assert ([l] + rest)[1..] == rest;
  }

  /** Two lines without newlines, each ended by one, split into the two and an empty piece. */
  lemma TwoLines(text: string, first: string, second: string)
    requires '\n' !in first && '\n' !in second && text == first + "\n" + second + "\n"
    ensures SplitLines(text) == [first, second, []]
  {
    var isNewline := c => c == '\n';
    assert text == first + ['\n'] + (second + ['\n'] + []);
    SplitWhereFirst(first, '\n', second + ['\n'] + [], isNewline);
    SplitWhereFirst(second, '\n', [], isNewline);
  }
}
