/**
 * Score assembly and ranking of `compute_similarity` in analyzer.py.  The TF-IDF fit,
 * the cosine similarity and the keyword extractor are library calls; they enter the
 * model as the fields of a `Library` value.
 */
module Similarity {
  import opened Normalizer

  /** A real number in [0, 1]: what a cosine of two non-negative TF-IDF vectors is. */
  type UnitReal = r: real | 0.0 <= r <= 1.0

  /** The library calls the scorer depends on.
      - `extractKeywords`: `extract_keywords`, an uninterpreted text -> keyword set map;
      - `tfidfFails`: whether fitting the TF-IDF vectoriser (or anything else in the
        guarded block) raises on these normalised documents;
      - `cosine(documents, i)`: the cosine similarity between the job description's
        vector and resume `i`'s vector, for a vectoriser fitted on `documents`. */
  datatype Library = Library(
    extractKeywords: string -> set<string>,
    tfidfFails: seq<string> -> bool,
    cosine: (seq<string>, nat) -> UnitReal)

  /** One record of the ranking table: column "Resume" and column "Match %". */
  datatype Row = Row(resume: string, matchPct: real)

  // ---------- keyword overlap ----------

  lemma {:induction false} SubsetCardinality(a: set<string>, b: set<string>)
    requires a <= b
    ensures |a| <= |b|
    ensures |a| == |b| ==> a == b
    decreases |a|
  {
    if a != {} {
      var x :| x in a;
      SubsetCardinality(a - {x}, b - {x});
      if |a| == |b| {
        assert a - {x} == b - {x};
        assert a == (a - {x}) + {x};
        assert b == (b - {x}) + {x};
      }
    }
  }

  /** The keyword-overlap score `len(jd & resume) / len(jd)`, or 0 for an empty job
      keyword set.  It is a ratio in [0, 1]; it is 0 exactly when no job keyword is in
      the resume and 1 exactly when every job keyword is. */
  function KeywordOverlap(jd: set<string>, resume: set<string>): (ratio: real)
    ensures 0.0 <= ratio <= 1.0
    ensures jd != {} ==> ratio * (|jd| as real) == |jd * resume| as real
    ensures ratio == 0.0 <==> jd * resume == {}
    ensures ratio == 1.0 <==> jd != {} && jd <= resume
  {
    if jd == {} then 0.0
    else
      SubsetCardinality(jd * resume, jd);
      assert jd * resume == jd <==> jd <= resume;
      (|jd * resume| as real) / (|jd| as real)
  }

  /** Example: the job keywords {python, django, aws} and the resume keywords
      {python, flask, docker} share one keyword out of three. */
  lemma OverlapExample()
    ensures KeywordOverlap({"python", "django", "aws"}, {"python", "flask", "docker"}) == 1.0 / 3.0
  {
    var jd: set<string> := {"python", "django", "aws"};
    var resume: set<string> := {"python", "flask", "docker"};
    assert "django" != "python" && "aws" != "python" && "django" != "aws";
    assert "django" !in resume && "aws" !in resume;
    assert jd * resume == {"python"};
  }

  // ---------- scores ----------

  /** The normalised documents `[jd] + resumes` the vectoriser is fitted on. */
  function Documents(jdText: string, resumeTexts: seq<string>): (docs: seq<string>)
    ensures |docs| == |resumeTexts| + 1
  {
    [PreprocessText(jdText)] + seq(|resumeTexts|, i requires 0 <= i < |resumeTexts| => PreprocessText(resumeTexts[i]))
  }

  /** `not any(documents)`: every document normalises to the empty string. */
  predicate AllBlank(jdText: string, resumeTexts: seq<string>) {
    var docs := Documents(jdText, resumeTexts);
    forall k :: 0 <= k < |docs| ==> docs[k] == []
  }

  /** The weighted score `0.7 * cos + 0.3 * kw` lies in [0, 1]. */
  function Blend(cos: UnitReal, kw: real): (score: real)
    requires 0.0 <= kw <= 1.0
    ensures 0.0 <= score <= 1.0
    ensures cos == 0.0 && kw == 0.0 <==> score == 0.0
  {
    0.7 * cos + 0.3 * kw
  }

  /** `final_scores`: the blended score of each resume, or 0.5 for every resume when
      the guarded block raises. */
  function Scores(jdText: string, resumeTexts: seq<string>, lib: Library): (scores: seq<real>)
    ensures |scores| == |resumeTexts|
    ensures forall i :: 0 <= i < |scores| ==> 0.0 <= scores[i] <= 1.0
  {
    var docs := Documents(jdText, resumeTexts);
    if lib.tfidfFails(docs) then seq(|resumeTexts|, _ => 0.5)
    else
      var jdKeywords := lib.extractKeywords(jdText);
      seq(|resumeTexts|, i requires 0 <= i < |resumeTexts| =>
        Blend(lib.cosine(docs, i), KeywordOverlap(jdKeywords, lib.extractKeywords(resumeTexts[i]))))
  }

  /** The table before sorting: each file name with its Match % (0 on the all-blank
      path, otherwise the score times 100). */
  function ScoreRows(jdText: string, resumeTexts: seq<string>, filenames: seq<string>, lib: Library): (rows: seq<Row>)
    requires |filenames| == |resumeTexts|
    ensures |rows| == |filenames|
    ensures forall i :: 0 <= i < |rows| ==> rows[i].resume == filenames[i] && 0.0 <= rows[i].matchPct <= 100.0
  {
    if AllBlank(jdText, resumeTexts) then seq(|filenames|, i requires 0 <= i < |filenames| => Row(filenames[i], 0.0))
    else
      var scores := Scores(jdText, resumeTexts, lib);
      seq(|filenames|, i requires 0 <= i < |filenames| => Row(filenames[i], scores[i] * 100.0))
  }

  // ---------- ranking ----------

  /** Match % never increases down the table. */
  predicate NonIncreasing(rows: seq<Row>) {
    forall i, j :: 0 <= i < j < |rows| ==> rows[i].matchPct >= rows[j].matchPct
  }

  function InsertByMatch(row: Row, sorted: seq<Row>): (r: seq<Row>)
    requires NonIncreasing(sorted)
    ensures multiset(r) == multiset(sorted) + multiset{row}
    ensures NonIncreasing(r)
  {
    if sorted == [] || row.matchPct >= sorted[0].matchPct then [row] + sorted
    else
      var rest := InsertByMatch(row, sorted[1..]);
      InsertBelowHead(row, sorted, rest);
      [sorted[0]] + rest
  }

  /** Inserting a row with a lower Match % than the head into the tail keeps the head
      in front. */
  lemma InsertBelowHead(row: Row, sorted: seq<Row>, rest: seq<Row>)
    requires sorted != [] && NonIncreasing(sorted) && row.matchPct < sorted[0].matchPct
    requires multiset(rest) == multiset(sorted[1..]) + multiset{row} && NonIncreasing(rest)
    ensures multiset([sorted[0]] + rest) == multiset(sorted) + multiset{row}
    ensures NonIncreasing([sorted[0]] + rest)
  {
    assert sorted == [sorted[0]] + sorted[1..];
    assert AtMost(sorted[1..] + [row], sorted[0].matchPct);
    PermutationAtMost(rest, sorted[1..] + [row], sorted[0].matchPct);
  }

  /** No row's Match % exceeds `bound`. */
  predicate AtMost(rows: seq<Row>, bound: real) {
    forall k :: 0 <= k < |rows| ==> rows[k].matchPct <= bound
  }

  lemma PermutationAtMost(a: seq<Row>, b: seq<Row>, bound: real)
    requires multiset(a) == multiset(b) && AtMost(b, bound)
    ensures AtMost(a, bound)
  {
    forall k | 0 <= k < |a| ensures a[k].matchPct <= bound {
      assert a[k] in multiset(b);
      var j :| 0 <= j < |b| && b[j] == a[k];
    }
  }

  /** `sort_values(by="Match %", ascending=False)`: a permutation of the rows in which
      Match % never increases. */
  function SortByMatch(rows: seq<Row>): (r: seq<Row>)
    ensures multiset(r) == multiset(rows)
    ensures NonIncreasing(r)
  {
    if rows == [] then []
    else
      assert rows == [rows[0]] + rows[1..];
      InsertByMatch(rows[0], SortByMatch(rows[1..]))
  }

  /** The DataFrame `compute_similarity` returns: the score rows, sorted by Match %
      except on the all-blank path, which returns them unsorted, in file-name order. */
  function Table(jdText: string, resumeTexts: seq<string>, filenames: seq<string>, lib: Library): (table: seq<Row>)
    requires |filenames| == |resumeTexts|
    ensures multiset(table) == multiset(ScoreRows(jdText, resumeTexts, filenames, lib))
    ensures !AllBlank(jdText, resumeTexts) ==> NonIncreasing(table)
  {
    var rows := ScoreRows(jdText, resumeTexts, filenames, lib);
    if AllBlank(jdText, resumeTexts) then rows else SortByMatch(rows)
  }

  /** The loop of `compute_similarity` that fills `keyword_scores`: one overlap ratio
      per resume, in resume order. */
  method KeywordScores(jdKeywords: set<string>, resumeTexts: seq<string>, extractKeywords: string -> set<string>)
    returns (keywordScores: seq<real>)
    ensures |keywordScores| == |resumeTexts|
    ensures forall k :: 0 <= k < |resumeTexts| ==>
      keywordScores[k] == KeywordOverlap(jdKeywords, extractKeywords(resumeTexts[k]))
  {
    keywordScores := [];
    var i := 0;
    while i < |resumeTexts|
      invariant 0 <= i <= |resumeTexts|
      invariant |keywordScores| == i
      invariant forall k :: 0 <= k < i ==>
        keywordScores[k] == KeywordOverlap(jdKeywords, extractKeywords(resumeTexts[k]))
    {
      var resumeKeywords := extractKeywords(resumeTexts[i]);
      var commonKeywords := jdKeywords * resumeKeywords;
      var keywordMatch := if jdKeywords != {} then (|commonKeywords| as real) / (|jdKeywords| as real) else 0.0;
      keywordScores := keywordScores + [keywordMatch];
      i := i + 1;
    }
  }

  /** `compute_similarity(jd_text, resume_texts, filenames)`. */
  method ComputeSimilarity(jdText: string, resumeTexts: seq<string>, filenames: seq<string>, lib: Library)
    returns (ranking: seq<Row>)
    requires |filenames| == |resumeTexts|
    ensures ranking == Table(jdText, resumeTexts, filenames, lib)
    ensures multiset(ranking) == multiset(ScoreRows(jdText, resumeTexts, filenames, lib))
    ensures NonIncreasing(ranking)
  {
    var jdProcessed := PreprocessText(jdText);
    var resumeProcessed := seq(|resumeTexts|, i requires 0 <= i < |resumeTexts| => PreprocessText(resumeTexts[i]));
    var documents := [jdProcessed] + resumeProcessed;
    assert documents == Documents(jdText, resumeTexts);

    if forall k :: 0 <= k < |documents| ==> documents[k] == [] {
      ranking := seq(|filenames|, i requires 0 <= i < |filenames| => Row(filenames[i], 0.0));
      TableRanksScoreRows(jdText, resumeTexts, filenames, lib);
      return;
    }

    var finalScores: seq<real>;
    if lib.tfidfFails(documents) {
      finalScores := seq(|resumeTexts|, _ => 0.5);
    } else {
      var jdKeywords := lib.extractKeywords(jdText);
      var keywordScores := KeywordScores(jdKeywords, resumeTexts, lib.extractKeywords);
      finalScores := seq(|resumeTexts|, k requires 0 <= k < |resumeTexts| =>
        0.7 * lib.cosine(documents, k) + 0.3 * keywordScores[k]);
    }
    assert finalScores == Scores(jdText, resumeTexts, lib) by {
      var scores := Scores(jdText, resumeTexts, lib);
      forall k | 0 <= k < |resumeTexts| ensures finalScores[k] == scores[k] {
      }
    }

    var rows := seq(|filenames|, k requires 0 <= k < |filenames| => Row(filenames[k], finalScores[k] * 100.0));
    assert rows == ScoreRows(jdText, resumeTexts, filenames, lib);
    ranking := SortByMatch(rows);
  }

  // ---------- properties of the ranking ----------

  /** The ranking is a permutation of the scored rows with Match % non-increasing;
      on the all-blank path it is exactly one row per file name, in order, scored 0. */
  lemma TableRanksScoreRows(jdText: string, resumeTexts: seq<string>, filenames: seq<string>, lib: Library)
    requires |filenames| == |resumeTexts|
    ensures var table := Table(jdText, resumeTexts, filenames, lib);
      && multiset(table) == multiset(ScoreRows(jdText, resumeTexts, filenames, lib))
      && NonIncreasing(table)
      && |table| == |filenames|
    ensures AllBlank(jdText, resumeTexts) ==>
      Table(jdText, resumeTexts, filenames, lib) == seq(|filenames|, i requires 0 <= i < |filenames| => Row(filenames[i], 0.0))
  {
    var rows := ScoreRows(jdText, resumeTexts, filenames, lib);
    assert |multiset(Table(jdText, resumeTexts, filenames, lib))| == |multiset(rows)|;
  }

  /** Every Match % in the table lies in [0, 100], and each resume's own row is there. */
  lemma TableRowsInRange(jdText: string, resumeTexts: seq<string>, filenames: seq<string>, lib: Library)
    requires |filenames| == |resumeTexts|
    ensures forall r :: r in Table(jdText, resumeTexts, filenames, lib) ==> 0.0 <= r.matchPct <= 100.0
    ensures forall i :: 0 <= i < |filenames| ==>
      ScoreRows(jdText, resumeTexts, filenames, lib)[i] in Table(jdText, resumeTexts, filenames, lib)
  {
    var rows := ScoreRows(jdText, resumeTexts, filenames, lib);
    var table := Table(jdText, resumeTexts, filenames, lib);
    forall r | r in table ensures 0.0 <= r.matchPct <= 100.0 {
      assert r in multiset(rows);
      var i :| 0 <= i < |rows| && rows[i] == r;
    }
    forall i | 0 <= i < |filenames| ensures rows[i] in table {
      assert rows[i] in multiset(table);
    }
  }

  /** When the guarded scoring block raises (and not every document is blank), every
      resume is scored 0.5, shown as 50. */
  lemma FallbackScoresFifty(jdText: string, resumeTexts: seq<string>, filenames: seq<string>, lib: Library)
    requires |filenames| == |resumeTexts|
    requires !AllBlank(jdText, resumeTexts)
    requires lib.tfidfFails(Documents(jdText, resumeTexts))
    ensures forall r :: r in Table(jdText, resumeTexts, filenames, lib) ==> r.matchPct == 50.0
  {
    var rows := ScoreRows(jdText, resumeTexts, filenames, lib);
    forall r | r in Table(jdText, resumeTexts, filenames, lib) ensures r.matchPct == 50.0 {
      assert r in multiset(rows);
      var i :| 0 <= i < |rows| && rows[i] == r;
    }
  }

  /** Without a failure, resume `i` is scored 100 * (0.7 * cosine + 0.3 * overlap). */
  lemma BlendedScore(jdText: string, resumeTexts: seq<string>, filenames: seq<string>, lib: Library, i: nat)
    requires |filenames| == |resumeTexts| && i < |filenames|
    requires !AllBlank(jdText, resumeTexts)
    requires !lib.tfidfFails(Documents(jdText, resumeTexts))
    ensures Row(filenames[i], 100.0 * (0.7 * lib.cosine(Documents(jdText, resumeTexts), i)
      + 0.3 * KeywordOverlap(lib.extractKeywords(jdText), lib.extractKeywords(resumeTexts[i]))))
      in Table(jdText, resumeTexts, filenames, lib)
  {
    var rows := ScoreRows(jdText, resumeTexts, filenames, lib);
    var kw := KeywordOverlap(lib.extractKeywords(jdText), lib.extractKeywords(resumeTexts[i]));
    var pct := 100.0 * (0.7 * lib.cosine(Documents(jdText, resumeTexts), i) + 0.3 * kw);
    assert Scores(jdText, resumeTexts, lib)[i] * 100.0 == pct;
    assert rows[i] == Row(filenames[i], pct);
    var table := Table(jdText, resumeTexts, filenames, lib);
    assert table == SortByMatch(rows);
    assert rows[i] in multiset(table);
    assert Row(filenames[i], pct) == Row(filenames[i], 100.0 * (0.7 * lib.cosine(Documents(jdText, resumeTexts), i)
      + 0.3 * KeywordOverlap(lib.extractKeywords(jdText), lib.extractKeywords(resumeTexts[i]))));
  }
}
