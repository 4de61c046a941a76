/**
 * The missing-keyword gap `missing_keywords` of analyzer.py: the job keywords the
 * resume lacks, without short or purely numeric ones: at most 15, the longest ones when
 * there are more than 15.  The result is a set, with no order.
 */
module KeywordGap {
  import opened Text
  import opened Ordering

  /** How many missing keywords are reported per resume (`sorted_missing[:15]`). */
  const MaxMissing: nat := 15

  /** `kw.isdigit()` on ASCII: non-empty and made of digits only. */
  predicate IsAllDigits(s: string) {
    s != [] && forall i :: 0 <= i < |s| ==> IsDigit(s[i])
  }

  /** A keyword worth reporting: longer than two characters and not a number. */
  predicate IsReportable(kw: string) {
    |kw| > 2 && !IsAllDigits(kw)
  }

  /** `filtered = {kw for kw in jd - resume if len(kw) > 2 and not kw.isdigit()}` */
  function Filtered(jd: set<string>, resume: set<string>): (filtered: set<string>)
    ensures filtered <= jd - resume
    ensures forall kw :: kw in filtered ==> |kw| > 2 && !IsAllDigits(kw)
    ensures forall kw {:trigger kw in filtered} :: kw in jd && kw !in resume && IsReportable(kw) ==> kw in filtered
  {
    set kw | kw in jd && kw !in resume && IsReportable(kw)
  }

  /** `s[:n]` */
  function Take(s: seq<string>, n: nat): (r: seq<string>)
    ensures |r| == if |s| <= n then |s| else n
    ensures r == s[..|r|]
  {
    if |s| <= n then s else s[..n]
  }

  /** A prefix of a sequence without repetitions has none either, and holds only
      elements of the sequence. */
  lemma TakeDistinct(s: seq<string>, n: nat)
    requires Distinct(s)
    ensures Distinct(Take(s, n)) && forall x :: x in Take(s, n) ==> x in s
  {
    var top := Take(s, n);
    forall i, j | 0 <= i < j < |top| ensures top[i] != top[j] {
      assert top[i] == s[i] && top[j] == s[j];
    }
  }

  /** `missing_keywords(jd_text, resume_text)`: every reported keyword is a reportable
      job keyword the resume lacks; at most 15 are reported, and all of them when
      there are no more than 15. */
  function MissingKeywords(jdText: string, resumeText: string, extractKeywords: string -> set<string>)
    : (missing: set<string>)
    ensures forall kw :: kw in missing ==>
      kw in extractKeywords(jdText) && kw !in extractKeywords(resumeText) && IsReportable(kw)
    ensures var filtered := Filtered(extractKeywords(jdText), extractKeywords(resumeText));
      |missing| == if |filtered| <= MaxMissing then |filtered| else MaxMissing
    ensures var filtered := Filtered(extractKeywords(jdText), extractKeywords(resumeText));
      |filtered| <= MaxMissing ==> missing == filtered
  {
    var filtered := Filtered(extractKeywords(jdText), extractKeywords(resumeText));
    var sortedMissing := Listing(filtered);
    LongestKept(filtered, MaxMissing);
    SetOf(Take(sortedMissing, MaxMissing))
  }

  /** When some reportable missing keywords are left out, none of them is longer than
      a reported one. */
  lemma MissingAreLongest(jdText: string, resumeText: string, extractKeywords: string -> set<string>)
    ensures forall dropped, kept ::
      dropped in Filtered(extractKeywords(jdText), extractKeywords(resumeText)) - MissingKeywords(jdText, resumeText, extractKeywords)
      && kept in MissingKeywords(jdText, resumeText, extractKeywords)
      ==> |dropped| <= |kept|
  {
    LongestKept(Filtered(extractKeywords(jdText), extractKeywords(resumeText)), MaxMissing);
  }

  /** Keeping the first `n` of a longest-first listing of `s` keeps `min(n, |s|)`
      elements of `s`, all of `s` when it has no more than `n`, and none shorter than
      an element left out. */
  lemma LongestKept(s: set<string>, n: nat)
    ensures var kept := SetOf(Take(Listing(s), n));
      && kept <= s
      && |kept| == (if |s| <= n then |s| else n)
      && (|s| <= n ==> kept == s)
      && forall dropped, k :: dropped in s - kept && k in kept ==> |dropped| <= |k|
  {
    var listing := Listing(s);
    var top := Take(listing, n);
    assert Distinct(top);
    DistinctCardinality(top);
    assert SetOf(listing) == s;
    PrefixIsLongest(listing, n);
  }

  lemma PrefixIsLongest(listing: seq<string>, n: nat)
    requires Distinct(listing) && LongestFirst(listing)
    ensures var top := Take(listing, n);
      forall dropped, k :: dropped in SetOf(listing) - SetOf(top) && k in SetOf(top) ==> |dropped| <= |k|
  {
    var top := Take(listing, n);
    forall dropped, k | dropped in SetOf(listing) - SetOf(top) && k in SetOf(top) ensures |dropped| <= |k| {
      var j :| 0 <= j < |listing| && listing[j] == dropped;
      var i :| 0 <= i < |top| && top[i] == k;
      assert listing[i] == k;
    }
  }
}
