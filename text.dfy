/**
 * ASCII character classes and the handful of `str` and `re` operations the resume ranker
 * relies on: lower/upper/capitalize/title casing, strip, suffix tests, substring search
 * and the regex word boundary `\b`.  Characters outside ASCII are treated as ordinary
 * non-word, non-space, caseless characters.
 */
module Text {

  /** Python's `str.isspace()` and the regex class `\s` on ASCII: code points 9-13
      (tab, line feed, vertical tab, form feed, carriage return), 28-31 (the four
      separator controls) and 32 (the blank). */
  predicate IsSpace(c: char) {
    9 <= c as int <= 13 || 28 <= c as int <= 32
  }

  predicate IsUpper(c: char) { 'A' <= c <= 'Z' }

  predicate IsLowerLetter(c: char) { 'a' <= c <= 'z' }

  /** A cased character in the sense of `str.title()`. */
  predicate IsLetter(c: char) { IsUpper(c) || IsLowerLetter(c) }

  predicate IsDigit(c: char) { '0' <= c <= '9' }

  /** The regex class `\w` on ASCII. */
  predicate IsWordChar(c: char) { IsLetter(c) || IsDigit(c) || c == '_' }

  function ToLower(c: char): (d: char)
    ensures !IsUpper(d)
    ensures IsUpper(c) ==> IsLowerLetter(d)
    ensures !IsUpper(c) ==> d == c
  {
    if IsUpper(c) then (c as int + 32) as char else c
  }

  function ToUpper(c: char): (d: char)
    ensures !IsLowerLetter(d)
    ensures IsLowerLetter(c) ==> IsUpper(d) && ToLower(d) == c
    ensures !IsLowerLetter(c) ==> d == c
  {
    if IsLowerLetter(c) then (c as int - 32) as char else c
  }

  /** `str.lower()` */
  function Lower(s: string): (r: string)
    ensures |r| == |s|
    ensures forall i :: 0 <= i < |s| ==> r[i] == ToLower(s[i])
  {
    seq(|s|, i requires 0 <= i < |s| => ToLower(s[i]))
  }

  /** `str.upper()` */
  function Upper(s: string): (r: string)
    ensures |r| == |s|
    ensures forall i :: 0 <= i < |s| ==> r[i] == ToUpper(s[i])
  {
    seq(|s|, i requires 0 <= i < |s| => ToUpper(s[i]))
  }

  /** `str.capitalize()`: first character upper case, the rest lower case. */
  function Capitalize(s: string): (r: string)
  {
    if s == [] then [] else [ToUpper(s[0])] + Lower(s[1..])
  }

  /** `str.title()`: a letter is upper-cased when the character before it is not a
      letter, and lower-cased otherwise. */
  function Title(s: string): (r: string)
  {
    TitleAfter(s, false)
  }

  function TitleAfter(s: string, afterLetter: bool): (r: string)
    ensures |r| == |s|
  {
    if s == [] then []
    else
      var c := if !IsLetter(s[0]) then s[0] else if afterLetter then ToLower(s[0]) else ToUpper(s[0]);
      [c] + TitleAfter(s[1..], IsLetter(s[0]))
  }

  /** Each character of a title-cased string is cased by whether a letter precedes it. */
  lemma {:induction false} TitleCharAt(s: string, afterLetter: bool, i: nat)
    requires i < |s|
    ensures var before := if i == 0 then afterLetter else IsLetter(s[i - 1]);
      TitleAfter(s, afterLetter)[i] ==
        if !IsLetter(s[i]) then s[i] else if before then ToLower(s[i]) else ToUpper(s[i])
    decreases i
  {
    if i > 0 {
      TitleCharAt(s[1..], IsLetter(s[0]), i - 1);
    }
  }

  /** Lower-casing commutes with taking a suffix. */
  lemma LowerSuffix(s: string, k: nat)
    requires k <= |s|
    ensures Lower(s)[k..] == Lower(s[k..])
  {
  }

  /** True when `s` holds no upper-case ASCII letter. */
  predicate IsLowerCase(s: string) {
    forall i :: 0 <= i < |s| ==> !IsUpper(s[i])
  }

  lemma LowerOfLowerCase(s: string)
    requires IsLowerCase(s)
    ensures Lower(s) == s
  {
  }

  /** Every casing rule only changes the case of letters: folding the result back to
      lower case gives the lower-case input again. */
  lemma {:induction false} CasingFoldsBack(s: string)
    ensures IsLowerCase(s) ==> Lower(Capitalize(s)) == s
    ensures IsLowerCase(s) ==> Lower(Upper(s)) == s
    ensures IsLowerCase(s) ==> Lower(Title(s)) == s
  {
    if IsLowerCase(s) {
      TitleFoldsBack(s, false);
    }
  }

  lemma {:induction false} TitleFoldsBack(s: string, afterLetter: bool)
    requires IsLowerCase(s)
    ensures Lower(TitleAfter(s, afterLetter)) == s
    decreases |s|
  {
    if s != [] {
      TitleFoldsBack(s[1..], IsLetter(s[0]));
      var r := TitleAfter(s, afterLetter);
      assert r[1..] == TitleAfter(s[1..], IsLetter(s[0]));
      assert Lower(r) == [ToLower(r[0])] + Lower(r[1..]);
    }
  }

  /** `s.endswith(suffix)` */
  predicate EndsWith(s: string, suffix: string) {
    |suffix| <= |s| && s[|s| - |suffix|..] == suffix
  }

  // ---------- strip ----------

  function TrimLeft(s: string): (r: string)
    ensures |r| <= |s| && r == s[|s| - |r|..]
    ensures forall i :: 0 <= i < |s| - |r| ==> IsSpace(s[i])
    ensures r != [] ==> !IsSpace(r[0])
  {
    if s != [] && IsSpace(s[0]) then TrimLeft(s[1..]) else s
  }

  function TrimRight(s: string): (r: string)
    ensures |r| <= |s| && r == s[..|r|]
    ensures forall i :: |r| <= i < |s| ==> IsSpace(s[i])
    ensures r != [] ==> !IsSpace(r[|r| - 1])
  {
    if s != [] && IsSpace(s[|s| - 1]) then TrimRight(s[..|s| - 1]) else s
  }

  /** Leading whitespace is trimmed inside `a` when `a` ends with a non-space: whatever
      follows is kept whole. */
  lemma {:induction false} TrimLeftConcat(a: string, b: string)
    requires a != [] && !IsSpace(a[|a| - 1])
    ensures TrimLeft(a + b) == TrimLeft(a) + b
    decreases |a|
  {
    if IsSpace(a[0]) {
      assert (a + b)[1..] == a[1..] + b;
      TrimLeftConcat(a[1..], b);
    }
  }

  /** Trimming the front of a text that ends with a non-space keeps that last character. */
  lemma {:induction false} TrimLeftLast(s: string)
    requires s != [] && !IsSpace(s[|s| - 1])
    ensures TrimLeft(s) != [] && TrimLeft(s)[|TrimLeft(s)| - 1] == s[|s| - 1]
    decreases |s|
  {
    if IsSpace(s[0]) {
      TrimLeftLast(s[1..]);
    }
  }

  /** A run of whitespace in front of a non-space (or of nothing) is trimmed away whole. */
  lemma {:induction false} TrimLeftBlank(w: string, b: string)
    requires IsBlank(w)
    requires b == [] || !IsSpace(b[0])
    ensures TrimLeft(w + b) == b
    decreases |w|
  {
    if w == [] {
      assert w + b == b;
    } else {
      assert (w + b)[1..] == w[1..] + b;
      TrimLeftBlank(w[1..], b);
    }
  }

  /** Only whitespace: `not s.strip()`. */
  predicate IsBlank(s: string) {
    forall i :: 0 <= i < |s| ==> IsSpace(s[i])
  }

  /** A concatenation is blank exactly when both parts are. */
  lemma BlankConcat(a: string, b: string)
    ensures IsBlank(a + b) <==> IsBlank(a) && IsBlank(b)
  {
    if IsBlank(a + b) {
      forall i | 0 <= i < |a| ensures IsSpace(a[i]) {
        assert (a + b)[i] == a[i];
      }
      forall i | 0 <= i < |b| ensures IsSpace(b[i]) {
        assert (a + b)[|a| + i] == b[i];
      }
    }
    if IsBlank(a) && IsBlank(b) {
      forall i | 0 <= i < |a + b| ensures IsSpace((a + b)[i]) {
        if i >= |a| {
          assert (a + b)[i] == b[i - |a|];
        }
      }
    }
  }

  /** `str.strip()`: drops leading and trailing whitespace.  The result is empty exactly
      when `s` is all whitespace, and otherwise starts and ends with a non-space. */
  function Strip(s: string): (r: string)
    ensures r == [] <==> forall i :: 0 <= i < |s| ==> IsSpace(s[i])
    ensures r != [] ==> !IsSpace(r[0]) && !IsSpace(r[|r| - 1])
  {
    var t := TrimLeft(s);
    var r := TrimRight(t);
    assert r == [] ==> forall i :: 0 <= i < |s| ==> IsSpace(s[i]) by {
      if r == [] {
        assert t == [];
      }
    }
    r
  }

  /** `Strip(s)` is the slice of `s` between its leading and trailing whitespace: what
      strip drops is whitespace only. */
  lemma StripBounds(s: string) returns (lo: nat, hi: nat)
    ensures lo <= hi <= |s| && Strip(s) == s[lo..hi]
    ensures forall i :: 0 <= i < lo || hi <= i < |s| ==> IsSpace(s[i])
  {
    var t := TrimLeft(s);
    lo := |s| - |t|;
    hi := lo + |Strip(s)|;
    assert Strip(s) == TrimRight(t);
    forall i | hi <= i < |s| ensures IsSpace(s[i]) {
      assert s[i] == t[i - lo];
    }
  }

  /** Concatenation is associative. */
  lemma ConcatAssoc(a: string, b: string, c: string)
    ensures a + (b + c) == (a + b) + c
  {
  }

  /** A text is the concatenation of the three slices that two cut points make. */
  lemma SliceThree(s: string, lo: nat, hi: nat)
    requires lo <= hi <= |s|
    ensures s == s[..lo] + s[lo..hi] + s[hi..]
  {
  }

  /** A string with no leading or trailing whitespace is its own strip. */
  lemma StripUnchanged(s: string)
    requires s != [] ==> !IsSpace(s[0]) && !IsSpace(s[|s| - 1])
    ensures Strip(s) == s
  {
  }

  // ---------- search ----------

  /** `sub` occurs in `s` at position `i`. */
  predicate SubstringAt(s: string, sub: string, i: nat) {
    i + |sub| <= |s| && s[i..i + |sub|] == sub
  }

  /** The regex assertion `\b` at position `p`: exactly one of the characters around
      `p` is a word character (outside the string counts as a non-word character). */
  predicate WordBoundary(s: string, p: nat)
    requires p <= |s|
  {
    (0 < p && IsWordChar(s[p - 1])) != (p < |s| && IsWordChar(s[p]))
  }

  /** The pattern `\b` + `sub` + `\b` matches at position `i`. */
  predicate WholeWordAt(s: string, sub: string, i: nat) {
    SubstringAt(s, sub, i) && WordBoundary(s, i) && WordBoundary(s, i + |sub|)
  }

  predicate MatchAt(s: string, sub: string, i: nat, wholeWord: bool) {
    if wholeWord then WholeWordAt(s, sub, i) else SubstringAt(s, sub, i)
  }

  /** Scans the positions from `i` on, left to right, for a match of `sub`. */
  function SearchFrom(s: string, sub: string, i: nat, wholeWord: bool): (found: bool)
    requires i <= |s| + 1
    ensures found <==> exists j: nat :: i <= j && MatchAt(s, sub, j, wholeWord)
    decreases |s| + 1 - i
  {
    if i + |sub| > |s| then false
    else if MatchAt(s, sub, i, wholeWord) then true
    else
      var rest := SearchFrom(s, sub, i + 1, wholeWord);
      assert rest <==> exists j: nat :: i <= j && MatchAt(s, sub, j, wholeWord) by {
        forall j: nat | i <= j && MatchAt(s, sub, j, wholeWord) ensures i + 1 <= j {
        }
      }
      rest
  }

  /** Python's `sub in s`. */
  function Contains(s: string, sub: string): (found: bool)
    ensures found <==> exists j: nat :: SubstringAt(s, sub, j)
  {
    var r := SearchFrom(s, sub, 0, false);
    assert r ==> exists j: nat :: SubstringAt(s, sub, j) by {
      if r {
        var j: nat :| 0 <= j && MatchAt(s, sub, j, false);
        assert SubstringAt(s, sub, j);
      }
    }
    assert (exists j: nat :: SubstringAt(s, sub, j)) ==> r by {
      if exists j: nat :: SubstringAt(s, sub, j) {
        var j: nat :| SubstringAt(s, sub, j);
        assert MatchAt(s, sub, j, false);
      }
    }
    r
  }

  /** `re.search(r"\b" + re.escape(sub) + r"\b", s) is not None`. */
  function ContainsWord(s: string, sub: string): (found: bool)
    ensures found <==> exists j: nat :: WholeWordAt(s, sub, j)
  {
    var r := SearchFrom(s, sub, 0, true);
    assert r ==> exists j: nat :: WholeWordAt(s, sub, j) by {
      if r {
        var j: nat :| 0 <= j && MatchAt(s, sub, j, true);
        assert WholeWordAt(s, sub, j);
      }
    }
    assert (exists j: nat :: WholeWordAt(s, sub, j)) ==> r by {
      if exists j: nat :: WholeWordAt(s, sub, j) {
        var j: nat :| WholeWordAt(s, sub, j);
        assert MatchAt(s, sub, j, true);
      }
    }
    r
  }
}
