/**
 * Character classes and string helpers shared by the OCR pipeline: the
 * JavaScript `\s` class, `toLowerCase` restricted to ASCII and the Swedish
 * letters, `trim`, `includes` and `split`.
 */
module Text {

  /** JavaScript's WhiteSpace and LineTerminator characters: the `\s` class, and what `trim` removes. */
  predicate IsWhitespace(c: char)
  {
    c == ' ' || c == '\t' || c == '\n' || c == '\r' || c == '\U{B}' || c == '\U{C}'
    || c == '\U{A0}' || c == '\U{1680}' || ('\U{2000}' <= c <= '\U{200A}')
    || c == '\U{2028}' || c == '\U{2029}' || c == '\U{202F}' || c == '\U{205F}'
    || c == '\U{3000}' || c == '\U{FEFF}'
  }

  predicate IsAsciiDigit(c: char) { '0' <= c <= '9' }

  predicate IsAsciiUpper(c: char) { 'A' <= c <= 'Z' }

  predicate IsAsciiLower(c: char) { 'a' <= c <= 'z' }

  /** Upper-case letters of the pattern class `[A-ZÅÄÖ]`. */
  predicate IsUpperLetter(c: char) { IsAsciiUpper(c) || c == 'Å' || c == 'Ä' || c == 'Ö' }

  /** Lower-case letters of the pattern class `[a-zåäö]`. */
  predicate IsLowerLetter(c: char) { IsAsciiLower(c) || c == 'å' || c == 'ä' || c == 'ö' }

  predicate IsLetter(c: char) { IsUpperLetter(c) || IsLowerLetter(c) }

  /** `toLowerCase` on one character, for ASCII and the Swedish upper-case letters. */
  function LowerChar(c: char): (r: char)
    ensures IsUpperLetter(c) ==> IsLowerLetter(r)
    ensures !IsUpperLetter(c) ==> r == c
    ensures IsWhitespace(r) <==> IsWhitespace(c)
  {
    if IsAsciiUpper(c) then (c as int + 32) as char
    else if c == 'Å' then 'å'
    else if c == 'Ä' then 'ä'
    else if c == 'Ö' then 'ö'
    else c
  }

  lemma LowerCharIdempotent(c: char)
    ensures LowerChar(LowerChar(c)) == LowerChar(c)
  {
  }

  function Lower(s: string): (r: string)
    ensures |r| == |s|
    ensures forall i :: 0 <= i < |s| ==> r[i] == LowerChar(s[i])
  {
    seq(|s|, i requires 0 <= i < |s| => LowerChar(s[i]))
  }

  /** Lower-casing a lower-cased string changes nothing. */
  lemma LowerIdempotent(s: string)
    ensures Lower(Lower(s)) == Lower(s)
    ensures forall i :: 0 <= i < |s| ==> LowerChar(Lower(s)[i]) == Lower(s)[i]
  {
    forall i | 0 <= i < |s| ensures LowerChar(Lower(s)[i]) == Lower(s)[i] {
      LowerCharIdempotent(s[i]);
    }
  }

  function TrimStart(s: string): (r: string)
    ensures |r| <= |s| && r == s[|s| - |r|..]
    ensures r != [] ==> !IsWhitespace(r[0])
    ensures forall i :: 0 <= i < |s| - |r| ==> IsWhitespace(s[i])
    decreases |s|
  {
    if s != [] && IsWhitespace(s[0]) then TrimStart(s[1..]) else s
  }

  function TrimEnd(s: string): (r: string)
    ensures |r| <= |s| && r == s[..|r|]
    ensures r != [] ==> !IsWhitespace(r[|r| - 1])
    ensures forall i :: |r| <= i < |s| ==> IsWhitespace(s[i])
    decreases |s|
  {
    if s != [] && IsWhitespace(s[|s| - 1]) then TrimEnd(s[..|s| - 1]) else s
  }

  /** A string with no leading or trailing whitespace. */
  predicate IsTrimmed(s: string)
  {
    s == [] || (!IsWhitespace(s[0]) && !IsWhitespace(s[|s| - 1]))
  }

  /** `t` occurs in `s` starting at position `k`. */
  predicate OccursAt(s: string, t: string, k: int)
  {
    0 <= k <= |s| - |t| && s[k..k + |t|] == t
  }

  /** JavaScript's `trim`: a contiguous piece of the input, with only whitespace cut off either end. */
  function Trim(s: string): (r: string)
    ensures IsTrimmed(r)
    ensures exists k :: OccursAt(s, r, k)
    ensures IsTrimmed(s) ==> r == s
  {
    var t := TrimStart(s);
    var r := TrimEnd(t);
    assert OccursAt(s, r, |s| - |t|);
    assert r != [] ==> r[0] == t[0];
    r
  }

  /** A property every character of `s` has, every character of `Trim(s)` has. */
  lemma TrimKeeps(s: string, P: char -> bool)
    requires forall i :: 0 <= i < |s| ==> P(s[i])
    ensures forall i :: 0 <= i < |Trim(s)| ==> P(Trim(s)[i])
  {
    var t := Trim(s);
    var k :| OccursAt(s, t, k);
    forall i | 0 <= i < |t|
      ensures P(t[i])
    {
      assert t[i] == s[k..k + |t|][i];
    }
  }

  /** `Trim(s)` is empty exactly when `s` is all whitespace. */
  lemma {:induction false} TrimEmptyIff(s: string)
    ensures Trim(s) == [] <==> forall i :: 0 <= i < |s| ==> IsWhitespace(s[i])
  {
    var t := TrimStart(s);
    if t != [] {
      assert !IsWhitespace(t[0]);
      assert !IsWhitespace(s[|s| - |t|]);
    }
  }

  /** `s` starts with `t`. */
  predicate IsPrefix(t: string, s: string)
  {
    |t| <= |s| && s[..|t|] == t
  }

  /** JavaScript's `s.includes(t)`: `t` occurs in `s` as a contiguous piece (the empty string occurs everywhere). */
  predicate Contains(s: string, t: string)
    decreases |s|
  {
    IsPrefix(t, s) || (s != [] && Contains(s[1..], t))
  }

  /** `Contains` agrees with the positional definition of a substring. */
  lemma {:induction false} ContainsIff(s: string, t: string)
    ensures Contains(s, t) <==> exists k :: OccursAt(s, t, k)
    decreases |s|
  {
    if IsPrefix(t, s) {
      assert OccursAt(s, t, 0);
    } else if s != [] {
      ContainsIff(s[1..], t);
      if exists k :: OccursAt(s, t, k) {
        var k :| OccursAt(s, t, k);
        assert k != 0;
        assert OccursAt(s[1..], t, k - 1);
      }
      if Contains(s[1..], t) {
        var k :| OccursAt(s[1..], t, k);
        assert s[1..][k..k + |t|] == s[k + 1..k + 1 + |t|];
        assert OccursAt(s, t, k + 1);
      }
    } else {
      assert forall k :: !OccursAt(s, t, k);
    }
  }

  /**
   * JavaScript's `s.split(sep)` for a separator class: the pieces between
   * separators, empty pieces included; there is always at least one piece.
   */
  function SplitWhere(s: string, isSep: char -> bool): (r: seq<string>)
    ensures |r| >= 1
    ensures forall i, k :: 0 <= i < |r| && 0 <= k < |r[i]| ==> !isSep(r[i][k])
    decreases |s|
  {
    if s == [] then [[]]
    else
      var rest := SplitWhere(s[1..], isSep);
      if isSep(s[0]) then [[]] + rest
      else [[s[0]] + rest[0]] + rest[1..]
  }

  /** The pieces joined back with the separators in between. */
  function JoinWith(pieces: seq<string>, seps: string): string
    requires |seps| + 1 == |pieces|
    decreases |pieces|
  {
    if |pieces| == 1 then pieces[0] else pieces[0] + [seps[0]] + JoinWith(pieces[1..], seps[1..])
  }

  /** The separator characters of `s`, in order. */
  function SeparatorsOf(s: string, isSep: char -> bool): string
    decreases |s|
  {
    if s == [] then [] else (if isSep(s[0]) then [s[0]] else []) + SeparatorsOf(s[1..], isSep)
  }

  /** Joining after an empty first piece puts the separator first. */
  lemma JoinAfterEmpty(pieces: seq<string>, seps: string, c: char)
    requires |seps| + 1 == |pieces|
    ensures JoinWith([[]] + pieces, [c] + seps) == [c] + JoinWith(pieces, seps)
  {
    var p := [[]] + pieces;
    assert p[1..] == pieces;
    assert ([c] + seps)[1..] == seps;
  }

  /** Joining after a character put in front of the first piece puts that character first. */
  lemma JoinAfterCons(pieces: seq<string>, seps: string, c: char)
    requires |seps| + 1 == |pieces|
    ensures JoinWith([[c] + pieces[0]] + pieces[1..], seps) == [c] + JoinWith(pieces, seps)
  {
    var p := [[c] + pieces[0]] + pieces[1..];
    if |pieces| > 1 {
      assert p[1..] == pieces[1..];
      assert p[0] + [seps[0]] + JoinWith(p[1..], seps[1..]) == [c] + (pieces[0] + [seps[0]] + JoinWith(pieces[1..], seps[1..]));
    }
  }

  /** Splitting loses nothing: joining the pieces with the separators found gives back the input. */
  lemma {:induction false} SplitJoin(s: string, isSep: char -> bool)
    ensures |SeparatorsOf(s, isSep)| + 1 == |SplitWhere(s, isSep)|
    ensures JoinWith(SplitWhere(s, isSep), SeparatorsOf(s, isSep)) == s
    decreases |s|
  {
    if s != [] {
      SplitJoin(s[1..], isSep);
      var rest := SplitWhere(s[1..], isSep);
      var seps := SeparatorsOf(s[1..], isSep);
      assert s == [s[0]] + s[1..];
      if isSep(s[0]) {
        assert SeparatorsOf(s, isSep) == [s[0]] + seps;
        JoinAfterEmpty(rest, seps, s[0]);
      } else {
        assert SeparatorsOf(s, isSep) == seps;
        JoinAfterCons(rest, seps, s[0]);
      }
    }
  }

  /** A string without separators is one piece. */
  lemma {:induction false} SplitWhereNone(a: string, isSep: char -> bool)
    requires forall k :: 0 <= k < |a| ==> !isSep(a[k])
    ensures SplitWhere(a, isSep) == [a]
    decreases |a|
  {
    if a != [] {
      SplitWhereNone(a[1..], isSep);
      assert [a[0]] + a[1..] == a;
    }
  }

  /** The piece before the first separator comes first, then the pieces after it. */
  lemma {:induction false} SplitWhereFirst(a: string, c: char, b: string, isSep: char -> bool)
    requires isSep(c) && forall k :: 0 <= k < |a| ==> !isSep(a[k])
    ensures SplitWhere(a + [c] + b, isSep) == [a] + SplitWhere(b, isSep)
    decreases |a|
  {
    var s := a + [c] + b;
    if a == [] {
      assert s[1..] == b;
    } else {
      assert s[1..] == a[1..] + [c] + b;
      SplitWhereFirst(a[1..], c, b, isSep);
      assert [a[0]] + a[1..] == a;
    }
  }

  /** JavaScript's `s.split('\n')`. */
  function SplitLines(s: string): (r: seq<string>)
    ensures |r| >= 1
    ensures forall i, k :: 0 <= i < |r| && 0 <= k < |r[i]| ==> r[i][k] != '\n'
  {
    SplitWhere(s, c => c == '\n')
  }

  /** Replaces every occurrence of one character, as `replace(/x/g, y)` does. */
  function ReplaceChar(s: string, from: char, to: char): (r: string)
    ensures |r| == |s|
    ensures forall i :: 0 <= i < |s| ==> r[i] == if s[i] == from then to else s[i]
  {
    seq(|s|, i requires 0 <= i < |s| => if s[i] == from then to else s[i])
  }
}
