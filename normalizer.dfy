/**
 * The text normaliser `preprocess_text` of analyzer.py: lower-case, blank out every
 * character other than letters, digits, whitespace, `+` and `#`, collapse whitespace
 * runs to one blank and strip.
 */
module Normalizer {
  import opened Text

  /** The characters the class `[a-zA-Z0-9\s+#]` accepts. */
  predicate IsKept(c: char) {
    IsLetter(c) || IsDigit(c) || IsSpace(c) || c == '+' || c == '#'
  }

  /** The characters a normalised text is made of. */
  predicate IsNormalChar(c: char) {
    IsLowerLetter(c) || IsDigit(c) || c == ' ' || c == '+' || c == '#'
  }

  /** What `preprocess_text` promises of its output: only `[a-z0-9 +#]`, no blank at
      either end and never two blanks in a row. */
  predicate IsNormalized(s: string) {
    && AllNormalChars(s)
    && (s != [] ==> s[0] != ' ' && s[|s| - 1] != ' ')
    && NoDoubleBlank(s)
  }

  predicate AllNormalChars(s: string) {
    forall i :: 0 <= i < |s| ==> IsNormalChar(s[i])
  }

  /** No two blanks in a row. */
  predicate NoDoubleBlank(s: string) {
    forall i :: 0 <= i < |s| - 1 ==> !(s[i] == ' ' && s[i + 1] == ' ')
  }

  /** A character that survives normalisation as itself: a letter, digit, `+` or `#`. */
  predicate IsContent(c: char) {
    IsLetter(c) || IsDigit(c) || c == '+' || c == '#'
  }

  /** `re.sub(r'[^a-zA-Z0-9\s+#]', ' ', text)` */
  function BlankOutOthers(s: string): (r: string)
    ensures |r| == |s|
    ensures forall i :: 0 <= i < |s| ==> r[i] == if IsKept(s[i]) then s[i] else ' '
    ensures forall i :: 0 <= i < |r| ==> IsKept(r[i])
  {
    seq(|s|, i requires 0 <= i < |s| => if IsKept(s[i]) then s[i] else ' ')
  }

  /** `re.sub(r'\s+', ' ', text)`: every maximal run of whitespace becomes one blank;
      all other characters are kept, in order. */
  function CollapseSpaces(s: string): (r: string)
    ensures r == [] <==> s == []
    ensures s != [] ==> r[0] == if IsSpace(s[0]) then ' ' else s[0]
    decreases |s|
  {
    if s == [] then []
    else if IsSpace(s[0]) then [' '] + CollapseSpaces(TrimLeft(s))
    else [s[0]] + CollapseSpaces(s[1..])
  }

  /** Every character of a suffix of `s` is a character of `s`. */
  lemma SuffixChars(s: string, t: string)
    requires |t| <= |s| && t == s[|s| - |t|..]
    ensures forall c :: c in t ==> c in s
  {
    forall c | c in t ensures c in s {
      var k :| 0 <= k < |t| && t[k] == c;
      assert s[|s| - |t| + k] == c;
    }
  }

  /** Collapsing only ever introduces blanks; every other character comes from `s` and
      is not whitespace. */
  lemma {:induction false} CollapseChars(s: string)
    ensures forall c :: c in CollapseSpaces(s) ==> c == ' ' || (c in s && !IsSpace(c))
    decreases |s|
  {
    if s != [] {
      if IsSpace(s[0]) {
        var t := TrimLeft(s);
        CollapseChars(t);
        SuffixChars(s, t);
      } else {
        CollapseChars(s[1..]);
        SuffixChars(s, s[1..]);
      }
    }
  }

  /** Collapsing keeps every character that is not whitespace. */
  lemma {:induction false} CollapseKeeps(s: string)
    ensures forall c :: c in s && !IsSpace(c) ==> c in CollapseSpaces(s)
    decreases |s|
  {
    if s != [] {
      assert forall c :: c in s ==> c == s[0] || c in s[1..];
      if IsSpace(s[0]) {
        var t := TrimLeft(s);
        CollapseKeeps(t);
        forall c | c in s[1..] && !IsSpace(c) ensures c in t {
          var k :| 0 <= k < |s| && s[k] == c;
          assert t[k - (|s| - |t|)] == c;
        }
      } else {
        CollapseKeeps(s[1..]);
      }
    }
  }

  /** A collapsed text never holds two blanks in a row. */
  lemma {:induction false} CollapseNoDoubleBlank(s: string)
    ensures NoDoubleBlank(CollapseSpaces(s))
    decreases |s|
  {
    if s != [] {
      var t := if IsSpace(s[0]) then TrimLeft(s) else s[1..];
      CollapseNoDoubleBlank(t);
      var r := CollapseSpaces(s);
      assert r == [r[0]] + CollapseSpaces(t);
      assert t != [] && IsSpace(s[0]) ==> r[1] != ' ';
      forall i | 0 <= i < |r| - 1 ensures !(r[i] == ' ' && r[i + 1] == ' ') {
        if i > 0 {
          assert r[i] == CollapseSpaces(t)[i - 1] && r[i + 1] == CollapseSpaces(t)[i];
        }
      }
    }
  }

  /** Collapsing works piece by piece across a cut that does not split a run of
      whitespace: with `CollapseRun` and `CollapseOne` this fixes the result on every text,
      one blank for each maximal run, in place. */
  lemma {:induction false} CollapseConcat(a: string, b: string)
    requires a == [] || !IsSpace(a[|a| - 1])
    ensures CollapseSpaces(a + b) == CollapseSpaces(a) + CollapseSpaces(b)
    decreases |a|
  {
    if a == [] {
      assert a + b == b && [] + CollapseSpaces(b) == CollapseSpaces(b);
    } else {
      var head, rest := CollapseHead(a, b);
      CollapseConcat(rest, b);
      ConcatAssoc(head, CollapseSpaces(rest), CollapseSpaces(b));
    }
  }

  /** One step of collapsing `a + b` that stays inside `a`: the first character of `a`,
      or its leading run of whitespace as one blank, then the rest of `a`. */
  lemma CollapseHead(a: string, b: string) returns (head: string, rest: string)
    requires a != [] && !IsSpace(a[|a| - 1])
    ensures |rest| < |a| && (rest == [] || !IsSpace(rest[|rest| - 1]))
    ensures CollapseSpaces(a) == head + CollapseSpaces(rest)
    ensures CollapseSpaces(a + b) == head + CollapseSpaces(rest + b)
  {
    assert (a + b)[0] == a[0];
    if IsSpace(a[0]) {
      head, rest := [' '], TrimLeft(a);
      TrimLeftLast(a);
      TrimLeftConcat(a, b);
    } else {
      head, rest := [a[0]], a[1..];
      assert (a + b)[1..] == rest + b;
    }
  }

  /** A maximal run of whitespace becomes a single blank. */
  lemma CollapseRun(w: string, b: string)
    requires w != [] && IsBlank(w)
    requires b == [] || !IsSpace(b[0])
    ensures CollapseSpaces(w + b) == [' '] + CollapseSpaces(b)
  {
    TrimLeftBlank(w, b);
  }

  /** A character that is not whitespace is kept as it is. */
  lemma CollapseOne(c: char)
    requires !IsSpace(c)
    ensures CollapseSpaces([c]) == [c]
  {
  }

  /** `preprocess_text(text)`: the empty string for an empty (or absent) text,
      otherwise a normalised text. */
  function PreprocessText(text: string): (r: string)
    ensures text == [] ==> r == []
    ensures IsNormalized(r)
  {
    if text == [] then []
    else
      var c := CollapseSpaces(BlankOutOthers(Lower(text)));
      CollapsedCharsAreNormal(text);
      CollapseNoDoubleBlank(BlankOutOthers(Lower(text)));
      StripOfCollapsed(c);
      Strip(c)
  }

  lemma CollapsedCharsAreNormal(text: string)
    ensures AllNormalChars(CollapseSpaces(BlankOutOthers(Lower(text))))
  {
    var b := BlankOutOthers(Lower(text));
    var c := CollapseSpaces(b);
    CollapseChars(b);
    forall i | 0 <= i < |c| ensures IsNormalChar(c[i]) {
      assert c[i] in c;
      if c[i] != ' ' {
        var j :| 0 <= j < |b| && b[j] == c[i];
      }
    }
  }

  /** Stripping a collapsed text of normal characters yields a normalised text. */
  lemma StripOfCollapsed(c: string)
    requires AllNormalChars(c) && NoDoubleBlank(c)
    ensures IsNormalized(Strip(c))
  {
    var lo, hi := StripBounds(c);
    SliceNormalChars(c, lo, hi);
    SliceNoDoubleBlank(c, lo, hi);
  }

  /** A slice of a text of normal characters is made of normal characters. */
  lemma SliceNormalChars(c: string, lo: nat, hi: nat)
    requires lo <= hi <= |c| && AllNormalChars(c)
    ensures AllNormalChars(c[lo..hi])
  {
    var r := c[lo..hi];
    forall i | 0 <= i < |r| ensures IsNormalChar(r[i]) {
      assert r[i] == c[lo + i];
    }
  }

  /** A slice of a text without two blanks in a row has none either. */
  lemma SliceNoDoubleBlank(c: string, lo: nat, hi: nat)
    requires lo <= hi <= |c| && NoDoubleBlank(c)
    ensures NoDoubleBlank(c[lo..hi])
  {
    var r := c[lo..hi];
    forall i | 0 <= i < |r| - 1 ensures !(r[i] == ' ' && r[i + 1] == ' ') {
      assert r[i] == c[lo + i] && r[i + 1] == c[lo + i + 1];
    }
  }

  /** Whitespace other than the blank never appears, and blanks never come in pairs:
      such a text comes out of `re.sub(r'\s+', ' ', ...)` unchanged. */
  lemma {:induction false} CollapseUnchanged(s: string)
    requires forall i :: 0 <= i < |s| ==> IsSpace(s[i]) ==> s[i] == ' '
    requires NoDoubleBlank(s)
    ensures CollapseSpaces(s) == s
    decreases |s|
  {
    if s != [] {
      var t := s[1..];
      assert forall i :: 0 <= i < |t| ==> IsSpace(t[i]) ==> t[i] == ' ' by {
        forall i | 0 <= i < |t| ensures IsSpace(t[i]) ==> t[i] == ' ' {
          assert t[i] == s[i + 1];
        }
      }
      assert NoDoubleBlank(t) by {
        forall i | 0 <= i < |t| - 1 ensures !(t[i] == ' ' && t[i + 1] == ' ') {
          assert t[i] == s[i + 1] && t[i + 1] == s[i + 2];
        }
      }
      CollapseUnchanged(t);
      if IsSpace(s[0]) {
        assert t != [] ==> !IsSpace(t[0]) by {
          if t != [] {
            assert s[0] == ' ' && t[0] == s[1];
          }
        }
        assert TrimLeft(s) == TrimLeft(t) == t;
      }
      assert s == [s[0]] + t;
    }
  }

  /** The letters, digits, `+` and `#` of a text, in order: what normalisation keeps of
      a text besides single blanks. */
  function ContentOf(s: string): (r: string)
    ensures |r| <= |s|
    ensures forall i :: 0 <= i < |r| ==> IsContent(r[i])
  {
    if s == [] then [] else (if IsContent(s[0]) then [s[0]] else []) + ContentOf(s[1..])
  }

  /** `preprocess_text` keeps every letter (lower-cased), digit, `+` and `#` of its
      input, in order, and adds none: apart from blanks its output is exactly that. */
  lemma PreprocessKeepsContent(text: string)
    ensures ContentOf(PreprocessText(text)) == Lower(ContentOf(text))
  {
    LowerContent(text);
    if text != [] {
      var b := BlankOutOthers(Lower(text));
      var c := CollapseSpaces(b);
      BlankOutKeepsContent(Lower(text));
      CollapseKeepsContent(b);
      var lo, hi := StripBounds(c);
      BlankEndsContent(c, lo, hi);
    }
  }

  lemma {:induction false} ContentConcat(a: string, b: string)
    ensures ContentOf(a + b) == ContentOf(a) + ContentOf(b)
    decreases |a|
  {
    if a != [] {
      assert (a + b)[1..] == a[1..] + b;
      ContentConcat(a[1..], b);
    } else {
      assert a + b == b;
    }
  }

  /** Whitespace holds no content. */
  lemma {:induction false} BlankContent(s: string)
    requires IsBlank(s)
    ensures ContentOf(s) == []
    decreases |s|
  {
    if s != [] {
      BlankContent(s[1..]);
    }
  }

  /** Dropping whitespace at either end keeps the content. */
  lemma BlankEndsContent(s: string, lo: nat, hi: nat)
    requires lo <= hi <= |s|
    requires forall i :: 0 <= i < lo || hi <= i < |s| ==> IsSpace(s[i])
    ensures ContentOf(s[lo..hi]) == ContentOf(s)
  {
    assert IsBlank(s[..lo]) by {
      forall i | 0 <= i < lo ensures IsSpace(s[..lo][i]) { assert s[..lo][i] == s[i]; }
    }
    assert IsBlank(s[hi..]) by {
      forall i | 0 <= i < |s| - hi ensures IsSpace(s[hi..][i]) { assert s[hi..][i] == s[hi + i]; }
    }
    BlankContent(s[..lo]);
    BlankContent(s[hi..]);
    SplitContent(s, lo, hi);
  }

  /** When the text before `lo` and the text from `hi` on hold no content, the content
      of the whole is that of the slice between them. */
  lemma SplitContent(s: string, lo: nat, hi: nat)
    requires lo <= hi <= |s|
    requires ContentOf(s[..lo]) == [] && ContentOf(s[hi..]) == []
    ensures ContentOf(s[lo..hi]) == ContentOf(s)
  {
    SliceThree(s, lo, hi);
    ContentConcat(s[..lo] + s[lo..hi], s[hi..]);
    ContentConcat(s[..lo], s[lo..hi]);
  }

  /** Two texts of equal length that agree wherever either holds content have the
      same content. */
  lemma {:induction false} SameContent(a: string, b: string)
    requires |a| == |b|
    requires forall i :: 0 <= i < |a| && (IsContent(a[i]) || IsContent(b[i])) ==> a[i] == b[i]
    ensures ContentOf(a) == ContentOf(b)
    decreases |a|
  {
    if a != [] {
      SameContent(a[1..], b[1..]);
    }
  }

  /** Blanking out other characters keeps the content. */
  lemma BlankOutKeepsContent(s: string)
    ensures ContentOf(BlankOutOthers(s)) == ContentOf(s)
  {
    SameContent(BlankOutOthers(s), s);
  }

  /** Lower-casing commutes with taking the content. */
  lemma {:induction false} LowerContent(s: string)
    ensures ContentOf(Lower(s)) == Lower(ContentOf(s))
    decreases |s|
  {
    if s != [] {
      LowerContent(s[1..]);
      LowerSuffix(s, 1);
      var head := if IsContent(s[0]) then [s[0]] else [];
      assert Lower(head + ContentOf(s[1..])) == Lower(head) + Lower(ContentOf(s[1..]));
    }
  }

  /** Collapsing whitespace keeps the content. */
  lemma {:induction false} CollapseKeepsContent(s: string)
    ensures ContentOf(CollapseSpaces(s)) == ContentOf(s)
    decreases |s|
  {
    if s != [] {
      if IsSpace(s[0]) {
        var t := TrimLeft(s);
        CollapseKeepsContent(t);
        SkipBlanksContent(s, t);
        ConsContent(' ', CollapseSpaces(t));
      } else {
        CollapseKeepsContent(s[1..]);
        ConsContent(s[0], CollapseSpaces(s[1..]));
      }
    }
  }

  lemma ConsContent(c: char, x: string)
    ensures ContentOf([c] + x) == (if IsContent(c) then [c] else []) + ContentOf(x)
  {
    assert ([c] + x)[1..] == x;
  }

  /** A suffix left after leading whitespace has the content of the whole text. */
  lemma SkipBlanksContent(s: string, t: string)
    requires |t| <= |s| && t == s[|s| - |t|..]
    requires forall i :: 0 <= i < |s| - |t| ==> IsSpace(s[i])
    ensures ContentOf(t) == ContentOf(s)
  {
    BlankEndsContent(s, |s| - |t|, |s|);
    assert s[|s| - |t|..|s|] == t;
  }

  /** A normalised text is a fixed point of `preprocess_text`. */
  lemma NormalizedUnchanged(s: string)
    requires IsNormalized(s)
    ensures PreprocessText(s) == s
  {
    if s != [] {
      LowerOfLowerCase(s);
      assert BlankOutOthers(s) == s;
      CollapseUnchanged(s);
      StripUnchanged(s);
    }
  }

  /** `preprocess_text` is idempotent. */
  lemma PreprocessIdempotent(text: string)
    ensures PreprocessText(PreprocessText(text)) == PreprocessText(text)
  {
    NormalizedUnchanged(PreprocessText(text));
  }

  /** A text normalises to the empty string exactly when it holds no letter, digit,
      `+` or `#`. */
  lemma PreprocessEmptyIff(text: string)
    ensures PreprocessText(text) == [] <==> forall i :: 0 <= i < |text| ==> !IsContent(text[i])
  {
    if text != [] {
      if exists i :: 0 <= i < |text| && IsContent(text[i]) {
        var i :| 0 <= i < |text| && IsContent(text[i]);
        ContentSurvives(text, i);
      } else {
        NothingSurvives(text);
      }
    }
  }

  /** A letter, digit, `+` or `#` survives blanking out and collapsing. */
  lemma ContentSurvives(text: string, i: nat)
    requires i < |text| && IsContent(text[i])
    ensures !IsBlank(CollapseSpaces(BlankOutOthers(Lower(text))))
  {
    var b := BlankOutOthers(Lower(text));
    CollapseKeeps(b);
    assert !IsSpace(b[i]) && b[i] in b;
    assert b[i] in CollapseSpaces(b);
  }

  /** Without letters, digits, `+` or `#` only whitespace is left after collapsing. */
  lemma NothingSurvives(text: string)
    requires forall i :: 0 <= i < |text| ==> !IsContent(text[i])
    ensures IsBlank(CollapseSpaces(BlankOutOthers(Lower(text))))
  {
    var b := BlankOutOthers(Lower(text));
    var c := CollapseSpaces(b);
    CollapseChars(b);
    assert IsBlank(b);
    forall k | 0 <= k < |c| ensures IsSpace(c[k]) {
      assert c[k] in c;
    }
  }

  /** Two words of letters, digits, `+` and `#` joined by any other character (a
      punctuation mark or a whitespace character) normalise to the two words, lower-cased,
      with one blank between them: `"C++/Java"` becomes `"c++ java"`. */
  lemma PreprocessSeparates(a: string, c: char, b: string)
    requires a != [] && b != []
    requires forall i :: 0 <= i < |a| ==> IsContent(a[i])
    requires forall i :: 0 <= i < |b| ==> IsContent(b[i])
    requires !IsContent(c)
    ensures PreprocessText(a + [c] + b) == Lower(a) + ([' '] + Lower(b))
  {
    var d := BlankedSeparator(a, c, b);
    LowerKeepsContent(a);
    LowerKeepsContent(b);
    CollapseJoin(Lower(a), d, Lower(b));
    NoSpaceUnchanged(Lower(a));
    NoSpaceUnchanged(Lower(b));
    StripUnchanged(Lower(a) + ([' '] + Lower(b)));
  }

  /** Blanking out turns the separator into a whitespace character `d` and keeps both
      words, lower-cased. */
  lemma BlankedSeparator(a: string, c: char, b: string) returns (d: char)
    requires forall i :: 0 <= i < |a| ==> IsContent(a[i])
    requires forall i :: 0 <= i < |b| ==> IsContent(b[i])
    requires !IsContent(c)
    ensures IsSpace(d)
    ensures BlankOutOthers(Lower(a + [c] + b)) == Lower(a) + ([d] + Lower(b))
  {
    var text := a + [c] + b;
    d := if IsSpace(c) then c else ' ';
    LowerKeepsContent(a);
    LowerKeepsContent(b);
    var blanked := BlankOutOthers(Lower(text));
    var expected := Lower(a) + ([d] + Lower(b));
    forall i | 0 <= i < |text| ensures blanked[i] == expected[i] {
      if i < |a| {
        assert text[i] == a[i];
      } else if i > |a| {
        assert text[i] == b[i - |a| - 1];
      }
    }
  }

  /** A single whitespace character between a text that does not end in whitespace and
      one that does not start with it becomes one blank; each side collapses on its own. */
  lemma {:induction false} CollapseJoin(x: string, d: char, y: string)
    requires x == [] || !IsSpace(x[|x| - 1])
    requires IsSpace(d)
    requires y == [] || !IsSpace(y[0])
    ensures CollapseSpaces(x + ([d] + y)) == CollapseSpaces(x) + ([' '] + CollapseSpaces(y))
  {
    var tail := [d] + y;
    assert CollapseSpaces(tail) == [' '] + CollapseSpaces(y) by {
      assert IsBlank([d]);
      CollapseRun([d], y);
    }
    CollapseConcat(x, tail);
  }

  /** A text without whitespace comes out of collapsing unchanged. */
  lemma NoSpaceUnchanged(s: string)
    requires forall i :: 0 <= i < |s| ==> !IsSpace(s[i])
    ensures CollapseSpaces(s) == s
  {
    assert NoDoubleBlank(s) by {
      forall i | 0 <= i < |s| - 1 ensures !(s[i] == ' ' && s[i + 1] == ' ') {
        assert !IsSpace(s[i]);
      }
    }
    CollapseUnchanged(s);
  }

  /** Lower-casing keeps letters, digits, `+` and `#` among themselves. */
  lemma LowerKeepsContent(s: string)
    requires forall i :: 0 <= i < |s| ==> IsContent(s[i])
    ensures forall i :: 0 <= i < |s| ==> IsContent(Lower(s)[i]) && !IsSpace(Lower(s)[i])
  {
  }
}
