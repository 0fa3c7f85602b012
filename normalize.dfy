/**
 * The text normaliser of `src/utils/fuzzyMatch.js` (`normalizeOcrText`):
 * lower-case and trim, then collapse the glyphs OCR confuses --
 * `1` to `l`, `0` to `o`, `5` to `s`, and the pair `rn` to `m`.
 */
module OcrNormalize {
  import opened Text

  /** `replace(/rn/g, 'm')`: occurrences found left to right, without overlap. */
  function ReplaceRn(s: string): (r: string)
    ensures |r| <= |s|
    decreases |s|
  {
    if |s| >= 2 && s[0] == 'r' && s[1] == 'n' then "m" + ReplaceRn(s[2..])
    else if s == [] then []
    else [s[0]] + ReplaceRn(s[1..])
  }

  /** `normalizeOcrText`. */
  function NormalizeOcrText(text: string): string
  {
    if text == [] then []
    else ReplaceRn(ReplaceChar(ReplaceChar(ReplaceChar(Trim(Lower(text)), '1', 'l'), '0', 'o'), '5', 's'))
  }

  /** Every character `ReplaceRn` outputs is a character of its input or the `m` it writes. */
  lemma {:induction false} ReplaceRnChars(s: string, P: char -> bool)
    requires P('m')
    requires forall i :: 0 <= i < |s| ==> P(s[i])
    ensures forall i :: 0 <= i < |ReplaceRn(s)| ==> P(ReplaceRn(s)[i])
    decreases |s|
  {
    if |s| >= 2 && s[0] == 'r' && s[1] == 'n' {
      ReplaceRnChars(s[2..], P);
    } else if s != [] {
      ReplaceRnChars(s[1..], P);
    }
  }

  /** The ends of `ReplaceRn(s)`: each is the input's own end character or a written `m`. */
  lemma {:induction false} ReplaceRnEnds(s: string)
    ensures (ReplaceRn(s) == []) == (s == [])
    ensures s != [] ==> ReplaceRn(s)[0] == (if IsPrefix("rn", s) then 'm' else s[0])
    ensures s != [] ==> ReplaceRn(s)[|ReplaceRn(s)| - 1] in {s[|s| - 1], 'm'}
    decreases |s|
  {
    if |s| >= 2 && s[0] == 'r' && s[1] == 'n' {
      assert IsPrefix("rn", s);
      ReplaceRnEnds(s[2..]);
    } else if s != [] {
      assert !IsPrefix("rn", s);
      ReplaceRnEnds(s[1..]);
      if |s| > 1 {
        assert s[1..][|s| - 2] == s[|s| - 1];
      }
    }
  }

  /** `s` starts with the pair `rn`. */
  lemma StartsWithRn(s: string)
    ensures IsPrefix("rn", s) <==> |s| >= 2 && s[0] == 'r' && s[1] == 'n'
  {
    if |s| >= 2 {
      assert s[..2][0] == s[0] && s[..2][1] == s[1];
      if s[0] == 'r' && s[1] == 'n' {
        assert s[..2] == "rn";
      }
    }
  }

  /** `ReplaceRn` leaves no `rn` behind: an `r` it copies is never followed by an `n`. */
  lemma {:induction false} ReplaceRnRemovesAll(s: string)
    ensures !Contains(ReplaceRn(s), "rn")
    decreases |s|
  {
    var r := ReplaceRn(s);
    if |s| >= 2 && s[0] == 'r' && s[1] == 'n' {
      ReplaceRnRemovesAll(s[2..]);
      assert r[1..] == ReplaceRn(s[2..]);
      StartsWithRn(r);
    } else if s != [] {
      ReplaceRnRemovesAll(s[1..]);
      assert r[1..] == ReplaceRn(s[1..]);
      ReplaceRnEnds(s[1..]);
      StartsWithRn(r);
      StartsWithRn(s);
      StartsWithRn(s[1..]);
    }
  }

  /** With no `rn` to find, `ReplaceRn` changes nothing. */
  lemma {:induction false} ReplaceRnIdentity(s: string)
    requires !Contains(s, "rn")
    ensures ReplaceRn(s) == s
    decreases |s|
  {
    if s != [] {
      StartsWithRn(s);
      ReplaceRnIdentity(s[1..]);
    }
  }

  /** A character that lower-casing and the four rewrites all leave alone. */
  predicate IsNormalChar(c: char)
  {
    LowerChar(c) == c && c != '1' && c != '0' && c != '5'
  }

  /** Lower-casing and trimming leaves characters that lower-casing fixes, and no whitespace at either end. */
  lemma LowerTrimShape(text: string)
    ensures IsTrimmed(Trim(Lower(text)))
    ensures forall i :: 0 <= i < |Trim(Lower(text))| ==> LowerChar(Trim(Lower(text))[i]) == Trim(Lower(text))[i]
  {
    var l := Lower(text);
    forall i | 0 <= i < |l|
      ensures LowerChar(l[i]) == l[i]
    {
      LowerCharIdempotent(text[i]);
    }
    TrimKeeps(l, c => LowerChar(c) == c);
  }

  /** The three single-character rewrites keep the ends non-blank and leave only normal characters. */
  lemma DigitRewriteShape(t: string)
    requires IsTrimmed(t)
    requires forall i :: 0 <= i < |t| ==> LowerChar(t[i]) == t[i]
    ensures var u := ReplaceChar(ReplaceChar(ReplaceChar(t, '1', 'l'), '0', 'o'), '5', 's');
      IsTrimmed(u) && forall i :: 0 <= i < |u| ==> IsNormalChar(u[i])
  {
  }

  /** The three single-character rewrites of the lower-cased, trimmed text. */
  function DigitRewrite(text: string): string
  {
    ReplaceChar(ReplaceChar(ReplaceChar(Trim(Lower(text)), '1', 'l'), '0', 'o'), '5', 's')
  }

  /** Before the `rn` rewrite the text is trimmed and holds only normal characters. */
  lemma DigitRewriteNormal(text: string)
    ensures IsTrimmed(DigitRewrite(text))
    ensures forall i :: 0 <= i < |DigitRewrite(text)| ==> IsNormalChar(DigitRewrite(text)[i])
  {
    LowerTrimShape(text);
    DigitRewriteShape(Trim(Lower(text)));
  }

  /** A string of normal characters is its own lower-case form. */
  lemma NormalCharsLower(s: string)
    requires forall i :: 0 <= i < |s| ==> IsNormalChar(s[i])
    ensures Lower(s) == s
  {
  }

  /** The `rn` rewrite of a trimmed string of normal characters is trimmed and normal. */
  lemma ReplaceRnNormal(u: string)
    requires IsTrimmed(u) && forall i :: 0 <= i < |u| ==> IsNormalChar(u[i])
    ensures IsTrimmed(ReplaceRn(u))
    ensures forall i :: 0 <= i < |ReplaceRn(u)| ==> IsNormalChar(ReplaceRn(u)[i])
  {
    ReplaceRnChars(u, IsNormalChar);
    ReplaceRnEnds(u);
  }

  /**
   * The result of `normalizeOcrText` is empty for empty input; otherwise it is
   * lower-cased, trimmed, and holds no `1`, `0`, `5` and no `rn`.
   */
  lemma NormalizedShape(text: string)
    ensures text == [] ==> NormalizeOcrText(text) == []
    ensures forall i :: 0 <= i < |NormalizeOcrText(text)| ==> IsNormalChar(NormalizeOcrText(text)[i])
    ensures Lower(NormalizeOcrText(text)) == NormalizeOcrText(text)
    ensures IsTrimmed(NormalizeOcrText(text))
    ensures !Contains(NormalizeOcrText(text), "rn")
  {
    if text != [] {
      var u := DigitRewrite(text);
      assert NormalizeOcrText(text) == ReplaceRn(u);
      DigitRewriteNormal(text);
      ReplaceRnNormal(u);
      ReplaceRnRemovesAll(u);
      NormalCharsLower(ReplaceRn(u));
    }
  }

  /** Normalising a normalised string changes nothing: `normalizeOcrText` is idempotent. */
  lemma NormalizeIdempotent(text: string)
    ensures NormalizeOcrText(NormalizeOcrText(text)) == NormalizeOcrText(text)
  {
    var n := NormalizeOcrText(text);
    NormalizedShape(text);
    if n != [] {
      var u := ReplaceChar(ReplaceChar(ReplaceChar(Trim(Lower(n)), '1', 'l'), '0', 'o'), '5', 's');
      assert Trim(Lower(n)) == n;
      assert u == n;
      ReplaceRnIdentity(n);
    }
  }
}
