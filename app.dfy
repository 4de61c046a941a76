/**
 * The upload gate and the `/analyze` request handler of app.py: the extension test,
 * the order in which a request is rejected, the collection of the uploaded resumes
 * into two parallel lists, and the assembly of the response.  Saving uploads to
 * temporary files, `secure_filename` and the parsing libraries enter as values.
 */
module App {
  import opened Wrappers
  import opened Text
  import opened Ordering
  import opened Similarity
  import opened KeywordGap
  import Extractor

  /** `ALLOWED_EXTENSIONS` */
  const AllowedExtensions: set<string> := {"pdf", "docx"}

  /** How many job-description keywords the response lists (`[:20]`). */
  const JdKeywordLimit: nat := 20

  // ---------- the extension test ----------

  /** `filename.rsplit('.', 1)[1]`: what follows the last dot. */
  function AfterLastDot(filename: string): (ext: string)
    requires '.' in filename
    ensures |ext| < |filename| && filename[|filename| - |ext| - 1] == '.'
    ensures ext == filename[|filename| - |ext|..] && '.' !in ext
  {
    var last := filename[|filename| - 1];
    if last == '.' then []
    else
      var init := filename[..|filename| - 1];
      assert '.' in init by {
        var k :| 0 <= k < |filename| && filename[k] == '.';
        assert init[k] == '.';
      }
      var ext := AfterLastDot(init) + [last];
      assert filename == init + [last];
      ext
  }

  /** `allowed_file(filename)`: a name passes the gate exactly when, lower-cased, it
      ends in `.pdf` or `.docx`. */
  function AllowedFile(filename: string): (allowed: bool)
    ensures allowed <==> EndsWith(Lower(filename), ".pdf") || EndsWith(Lower(filename), ".docx")
  {
    ExtensionGateIff(filename);
    '.' in filename && Lower(AfterLastDot(filename)) in AllowedExtensions
  }

  /** The extension test of `allowed_file` holds exactly when the name ends, lower-cased,
      in `.pdf` or `.docx`. */
  lemma ExtensionGateIff(filename: string)
    ensures ('.' in filename && Lower(AfterLastDot(filename)) in AllowedExtensions) <==>
      EndsWith(Lower(filename), ".pdf") || EndsWith(Lower(filename), ".docx")
  {
    AllowedEndsWithExtension(filename);
    if EndsWith(Lower(filename), ".pdf") {
      assert "." + "pdf" == ".pdf";
      ExtensionAllowed(filename, "pdf");
    }
    if EndsWith(Lower(filename), ".docx") {
      assert "." + "docx" == ".docx";
      ExtensionAllowed(filename, "docx");
    }
  }

  /** A name whose extension is allowed ends, lower-cased, in `.pdf` or `.docx`. */
  lemma AllowedEndsWithExtension(filename: string)
    ensures '.' in filename && Lower(AfterLastDot(filename)) in AllowedExtensions ==>
      EndsWith(Lower(filename), ".pdf") || EndsWith(Lower(filename), ".docx")
  {
    if '.' in filename {
      EndsWithOwnExtension(filename);
      EndsWithDotted(Lower(filename), Lower(AfterLastDot(filename)));
    }
  }

  lemma EndsWithDotted(l: string, e: string)
    requires EndsWith(l, "." + e)
    ensures e == "pdf" ==> EndsWith(l, ".pdf")
    ensures e == "docx" ==> EndsWith(l, ".docx")
  {
    if e == "pdf" {
      assert "." + e == ".pdf";
    } else if e == "docx" {
      assert "." + e == ".docx";
    }
  }

  /** A name ending, lower-cased, in the dot and an allowed extension has that
      extension after its last dot. */
  lemma ExtensionAllowed(filename: string, ext: string)
    requires ext in AllowedExtensions
    ensures EndsWith(Lower(filename), "." + ext) ==>
      '.' in filename && Lower(AfterLastDot(filename)) == ext
  {
    if EndsWith(Lower(filename), "." + ext) {
      EndsWithExtension(filename, ext);
    }
  }

  /** The gate lets through exactly the names the extractor has a reader for. */
  lemma GateMatchesDispatch(filename: string)
    ensures AllowedFile(filename) <==> Extractor.ReaderFor(filename) != Extractor.Unsupported
  {
  }

  /** Lower-cased, a name with a dot ends in a dot and its lower-cased extension. */
  lemma EndsWithOwnExtension(filename: string)
    requires '.' in filename
    ensures EndsWith(Lower(filename), "." + Lower(AfterLastDot(filename)))
  {
    var ext := AfterLastDot(filename);
    var n := |filename| - |ext|;
    LowerSuffix(filename, n);
    assert Lower(filename)[n - 1] == '.';
    EndsWithAfter(Lower(filename), '.', Lower(ext));
  }

  lemma EndsWithAfter(s: string, c: char, suffix: string)
    requires |suffix| < |s| && s[|s| - |suffix| - 1] == c && s[|s| - |suffix|..] == suffix
    ensures EndsWith(s, [c] + suffix)
  {
    assert s[|s| - |suffix| - 1..] == [c] + s[|s| - |suffix|..];
  }

  /** A name whose lower-cased form ends in a dot and a dot-free extension has that
      extension after its last dot. */
  lemma EndsWithExtension(filename: string, ext: string)
    requires '.' !in ext
    requires EndsWith(Lower(filename), "." + ext)
    ensures '.' in filename && Lower(AfterLastDot(filename)) == ext
  {
    ExtensionDots(filename, ext);
    SuffixAfterDot(filename, |ext|);
  }

  /** The dots of a name ending, lower-cased, in a dot and a dot-free `ext`. */
  lemma ExtensionDots(filename: string, ext: string)
    requires '.' !in ext
    requires EndsWith(Lower(filename), "." + ext)
    ensures DotThenPlain(filename, |ext|) && Lower(filename[|filename| - |ext|..]) == ext
  {
    DottedSuffix(Lower(filename), ext);
    LowerKeepsDots(filename);
    LowerSuffix(filename, |filename| - |ext|);
  }

  /** A text ending in a dot and a dot-free `ext` has a dot right before `ext` and none
      after it. */
  lemma DottedSuffix(l: string, ext: string)
    requires '.' !in ext && EndsWith(l, "." + ext)
    ensures |ext| < |l| && l[|l| - |ext| - 1] == '.' && l[|l| - |ext|..] == ext
    ensures forall i :: |l| - |ext| <= i < |l| ==> l[i] != '.'
  {
    var k := |l| - |ext|;
    assert l[k - 1..] == "." + ext;
    assert l[k..] == l[k - 1..][1..];
    forall i | k <= i < |l| ensures l[i] != '.' {
      assert l[i] == ext[i - k];
    }
  }

  /** Lower-casing neither makes nor removes dots. */
  lemma LowerKeepsDots(s: string)
    ensures forall i :: 0 <= i < |s| ==> (Lower(s)[i] == '.' <==> s[i] == '.')
  {
  }

  /** The name ends in a dot and `n` characters other than a dot. */
  predicate DotThenPlain(filename: string, n: nat) {
    && n < |filename| && filename[|filename| - n - 1] == '.'
    && forall i :: |filename| - n <= i < |filename| ==> filename[i] != '.'
  }

  /** When the name ends in a dot and `n` non-dot characters, those characters are
      what follows the last dot. */
  lemma SuffixAfterDot(filename: string, n: nat)
    requires DotThenPlain(filename, n)
    ensures '.' in filename && AfterLastDot(filename) == filename[|filename| - n..]
  {
    assert filename[|filename| - n - 1] in filename;
    var ext := AfterLastDot(filename);
    PlainSuffix(filename, ext);
    DotThenPlainUnique(filename, |ext|, n);
  }

  /** A dot-free suffix right after a dot is a dot followed by plain characters. */
  lemma PlainSuffix(filename: string, ext: string)
    requires |ext| < |filename| && filename[|filename| - |ext| - 1] == '.'
    requires ext == filename[|filename| - |ext|..] && '.' !in ext
    ensures DotThenPlain(filename, |ext|)
  {
    forall i | |filename| - |ext| <= i < |filename| ensures filename[i] != '.' {
      assert filename[i] == ext[i - (|filename| - |ext|)];
    }
  }

  /** Only one suffix of a name is a dot followed by plain characters. */
  lemma DotThenPlainUnique(filename: string, m: nat, n: nat)
    requires DotThenPlain(filename, m) && DotThenPlain(filename, n)
    ensures m == n
  {
    assert filename[|filename| - m - 1] == '.' && filename[|filename| - n - 1] == '.';
  }

  /** Upper-case extensions pass. */
  lemma UpperCaseExtensionAllowed()
    ensures AllowedFile("CV.PDF")
  {
    assert Lower("CV.PDF") == "cv.pdf";
    EndsWithExtension("CV.PDF", "pdf");
  }

  /** A bare extension passes. */
  lemma BareExtensionAllowed()
    ensures AllowedFile(".docx")
  {
    LowerOfLowerCase(".docx");
    EndsWithExtension(".docx", "docx");
  }

  /** Only what follows the last dot counts. */
  lemma LastDotCounts()
    ensures !AllowedFile("cv.pdf.txt")
    ensures !AllowedFile("pdf")
  {
    SuffixAfterDot("cv.pdf.txt", 3);
    LowerOfLowerCase("txt");
  }

  // ---------- the request ----------

  /** One uploaded file: the name the client gave and what the libraries make of it. */
  datatype Upload = Upload(filename: string, content: Extractor.SavedFile)

  /** The parts of the request `analyze` reads: the `job_description` form field and
      the `resumes` file list, each possibly absent. */
  datatype Form = Form(jobDescription: Option<string>, resumes: Option<seq<Upload>>)

  /** A resume that made it through collection. */
  datatype Resume = Resume(filename: string, text: string)

  /** One entry of `missing_keywords` in the response. */
  datatype MissingEntry = MissingEntry(filename: string, missing: seq<string>)

  /** The JSON response and its status. */
  datatype Response =
    | Rejected(status: nat, error: string)
    | Analysis(rankings: seq<Row>, missingKeywords: seq<MissingEntry>, jdKeywords: seq<string>, totalResumes: nat)

  const NoJobDescription := "Please provide a job description"
  const NoResumesUploaded := "No resumes uploaded"
  const NoResumesSelected := "No resumes selected"
  const NoTextExtracted := "Could not extract text from any resume"

  /** `request.form.get('job_description', '').strip()` */
  function JobText(form: Form): (jd: string)
    ensures form.jobDescription.None? ==> jd == []
    ensures form.jobDescription.Some? ==> (jd == [] <==> IsBlank(form.jobDescription.value))
    ensures jd != [] ==> !IsSpace(jd[0]) && !IsSpace(jd[|jd| - 1])
  {
    Strip(form.jobDescription.GetOr(""))
  }

  /** `not files or files[0].filename == ''` */
  predicate NoneSelected(files: seq<Upload>) {
    files == [] || files[0].filename == ""
  }

  /** `file and allowed_file(file.filename)`: an upload is truthy when it has a name. */
  predicate Accepted(upload: Upload)
    ensures Accepted(upload) <==>
      upload.filename != "" && (EndsWith(Lower(upload.filename), ".pdf") || EndsWith(Lower(upload.filename), ".docx"))
  {
    upload.filename != "" && AllowedFile(upload.filename)
  }

  /** The text extracted from an upload, dispatched on its secured name. */
  function TextOf(upload: Upload, secure: string -> string): string {
    Extractor.ExtractResumeText(upload.content, secure(upload.filename)).text
  }

  /** The resumes the collection loop keeps, in upload order: accepted uploads whose
      extracted text is non-empty, under their secured names. */
  function Collected(uploads: seq<Upload>, secure: string -> string): (kept: seq<Resume>)
    ensures |kept| <= |uploads|
    ensures forall k :: 0 <= k < |kept| ==> kept[k].text != ""
  {
    if uploads == [] then []
    else
      var u := uploads[|uploads| - 1];
      Collected(uploads[..|uploads| - 1], secure) + KeptOf(u, secure)
  }

  /** What one upload contributes: its resume when it is accepted and yields text. */
  function KeptOf(u: Upload, secure: string -> string): (kept: seq<Resume>)
    ensures |kept| <= 1 && forall k :: 0 <= k < |kept| ==> kept[k].text != ""
  {
    Keep(Accepted(u), secure(u.filename), TextOf(u, secure))
  }

  /** `if text: resumes.append(...)` for an upload that passed the gate or not. */
  function Keep(accepted: bool, name: string, text: string): (kept: seq<Resume>)
    ensures kept == [] <==> !accepted || text == ""
    ensures |kept| <= 1 && forall k :: 0 <= k < |kept| ==> kept[k] == Resume(name, text)
  {
    if accepted && text != "" then [Resume(name, text)] else []
  }

  /** Every kept resume comes from an accepted upload, carries that upload's secured
      name and non-empty extracted text, and no more resumes are kept than uploaded. */
  lemma {:induction false} CollectedSound(uploads: seq<Upload>, secure: string -> string)
    ensures |Collected(uploads, secure)| <= |uploads|
    ensures forall r :: r in Collected(uploads, secure) ==>
      r.text != "" && (exists u :: u in uploads && Accepted(u) && r == Resume(secure(u.filename), TextOf(u, secure)))
    decreases |uploads|
  {
    if uploads != [] {
      var init := uploads[..|uploads| - 1];
      CollectedSound(init, secure);
      assert forall v :: v in init ==> v in uploads;
    }
  }

  /** Collection keeps upload order: collecting two runs of uploads gives the resumes
      of the first run followed by those of the second. */
  lemma {:induction false} CollectedConcat(a: seq<Upload>, b: seq<Upload>, secure: string -> string)
    ensures Collected(a + b, secure) == Collected(a, secure) + Collected(b, secure)
    decreases |b|
  {
    if b != [] {
      var b', last := b[..|b| - 1], b[|b| - 1];
      assert (a + b)[..|a + b| - 1] == a + b' && (a + b)[|a + b| - 1] == last;
      assert Collected(a + b, secure) == Collected(a + b', secure) + KeptOf(last, secure);
      assert Collected(b, secure) == Collected(b', secure) + KeptOf(last, secure);
      CollectedConcat(a, b', secure);
    } else {
      assert a + b == a;
    }
  }

  /** A single upload is kept exactly when it is accepted and yields text. */
  lemma CollectedOne(u: Upload, secure: string -> string)
    ensures Collected([u], secure) ==
      if Accepted(u) && TextOf(u, secure) != "" then [Resume(secure(u.filename), TextOf(u, secure))] else []
  {
    assert [u][..0] == [];
  }

  function Names(resumes: seq<Resume>): (names: seq<string>)
    ensures |names| == |resumes|
    ensures forall k :: 0 <= k < |resumes| ==> names[k] == resumes[k].filename
  {
    seq(|resumes|, k requires 0 <= k < |resumes| => resumes[k].filename)
  }

  function Texts(resumes: seq<Resume>): (texts: seq<string>)
    ensures |texts| == |resumes|
    ensures forall k :: 0 <= k < |resumes| ==> texts[k] == resumes[k].text
  {
    seq(|resumes|, k requires 0 <= k < |resumes| => resumes[k].text)
  }

  /** Whether the request gets as far as scoring. */
  predicate Scored(form: Form, secure: string -> string) {
    JobText(form) != [] && form.resumes.Some? && !NoneSelected(form.resumes.value)
    && Collected(form.resumes.value, secure) != []
  }

  /** What a successful response reports for job text `jd` and kept resumes `kept`:
      the ranking of the kept resumes, their missing keywords one entry per resume in
      order, each listed once, `min(20, |K|)` different job keywords out of the set `K`
      extracted from the job text, and how many resumes were kept. */
  predicate Reports(response: Response, jd: string, kept: seq<Resume>, lib: Library)
    requires response.Analysis?
  {
    && response.rankings == Table(jd, Texts(kept), Names(kept), lib)
    && NonIncreasing(response.rankings)
    && |response.missingKeywords| == |kept|
    && (forall k :: 0 <= k < |kept| ==>
          response.missingKeywords[k].filename == kept[k].filename
          && SetOf(response.missingKeywords[k].missing) == MissingKeywords(jd, kept[k].text, lib.extractKeywords)
          && Distinct(response.missingKeywords[k].missing))
    && |response.jdKeywords| == (if |lib.extractKeywords(jd)| <= JdKeywordLimit then |lib.extractKeywords(jd)| else JdKeywordLimit)
    && Distinct(response.jdKeywords)
    && (forall kw :: kw in response.jdKeywords ==> kw in lib.extractKeywords(jd))
    && response.totalResumes == |kept|
  }

  /** `analyze()`: rejects, in this order, a blank job description, a request without
      a resume field, an empty selection and a batch from which no text was extracted;
      otherwise ranks the kept resumes and reports on them. */
  method Analyze(form: Form, secure: string -> string, lib: Library) returns (response: Response)
    ensures JobText(form) == [] ==> response == Rejected(400, NoJobDescription)
    ensures JobText(form) != [] && form.resumes.None? ==> response == Rejected(400, NoResumesUploaded)
    ensures JobText(form) != [] && form.resumes.Some? && NoneSelected(form.resumes.value) ==>
      response == Rejected(400, NoResumesSelected)
    ensures (JobText(form) != [] && form.resumes.Some? && !NoneSelected(form.resumes.value) &&
             Collected(form.resumes.value, secure) == []) ==> response == Rejected(400, NoTextExtracted)
    ensures response.Analysis? <==> Scored(form, secure)
    ensures response.Analysis? ==>
      Reports(response, JobText(form), Collected(form.resumes.value, secure), lib)
  {
    var jdText := JobText(form);
    if jdText == [] {
      return Rejected(400, NoJobDescription);
    }
    if form.resumes.None? {
      return Rejected(400, NoResumesUploaded);
    }
    var files := form.resumes.value;
    if NoneSelected(files) {
      return Rejected(400, NoResumesSelected);
    }
    var resumeTexts, filenames := CollectResumes(files, secure);
    if resumeTexts == [] {
      return Rejected(400, NoTextExtracted);
    }
    var rankings := ComputeSimilarity(jdText, resumeTexts, filenames, lib);
    var missingData := ReportMissing(resumeTexts, filenames, MissingListOf(jdText, lib.extractKeywords));
    MissingEntriesSound(jdText, resumeTexts, filenames, lib.extractKeywords);
    var jdKeywords := Take(Listing(lib.extractKeywords(jdText)), JdKeywordLimit);
    JdKeywordsListed(lib.extractKeywords(jdText));
    response := Analysis(rankings, missingData, jdKeywords, |filenames|);
  }

  /** `list(extract_keywords(jd_text))[:20]` lists `min(20, |keywords|)` different
      keywords, all of them extracted. */
  lemma JdKeywordsListed(keywords: set<string>)
    ensures var top := Take(Listing(keywords), JdKeywordLimit);
      && |top| == (if |keywords| <= JdKeywordLimit then |keywords| else JdKeywordLimit)
      && Distinct(top)
      && forall kw :: kw in top ==> kw in keywords
  {
    TakeDistinct(Listing(keywords), JdKeywordLimit);
  }

  /** The collection loop of `analyze`: keeps, in upload order, the secured name and
      the text of every accepted upload with non-empty text, in two parallel lists. */
  method CollectResumes(files: seq<Upload>, secure: string -> string) returns (resumeTexts: seq<string>, filenames: seq<string>)
    ensures filenames == Names(Collected(files, secure))
    ensures resumeTexts == Texts(Collected(files, secure))
  {
    resumeTexts, filenames := [], [];
    ghost var kept: seq<Resume> := [];
    for i := 0 to |files|
      invariant kept == Collected(files[..i], secure)
      invariant filenames == Names(kept) && resumeTexts == Texts(kept)
    {
      CollectedStep(files, secure, i);
      var file := files[i];
      if file.filename != "" && AllowedFile(file.filename) {
        var filename := secure(file.filename);
        var text := Extractor.ExtractResumeText(file.content, filename).text;
        if text != "" {
          resumeTexts := resumeTexts + [text];
          filenames := filenames + [filename];
          ResumeAppended(kept, Resume(filename, text));
          kept := kept + [Resume(filename, text)];
        }
      }
    }
    assert files[..|files|] == files;
  }

  lemma CollectedStep(files: seq<Upload>, secure: string -> string, i: nat)
    requires i < |files|
    ensures Collected(files[..i + 1], secure) == Collected(files[..i], secure) + KeptOf(files[i], secure)
  {
    assert files[..i + 1][..i] == files[..i];
  }

  lemma ResumeAppended(kept: seq<Resume>, r: Resume)
    ensures Names(kept + [r]) == Names(kept) + [r.filename]
    ensures Texts(kept + [r]) == Texts(kept) + [r.text]
  {
  }

  /** The entries the missing-keyword loop builds for the resumes named `names` with
      texts `texts`, when `missingOf` lists what a resume text lacks. */
  function MissingEntries(texts: seq<string>, names: seq<string>, missingOf: string -> seq<string>)
    : (entries: seq<MissingEntry>)
    requires |names| == |texts|
    ensures |entries| == |names|
  {
    seq(|names|, k requires 0 <= k < |names| => MissingEntry(names[k], missingOf(texts[k])))
  }

  /** `list(missing_keywords(jd_text, text))` for a resume text. */
  function MissingListOf(jdText: string, extractKeywords: string -> set<string>): string -> seq<string> {
    text => Listing(MissingKeywords(jdText, text, extractKeywords))
  }

  lemma MissingEntriesStep(texts: seq<string>, names: seq<string>, missingOf: string -> seq<string>, i: nat)
    requires i < |names| == |texts|
    ensures MissingEntries(texts[..i + 1], names[..i + 1], missingOf)
      == MissingEntries(texts[..i], names[..i], missingOf) + [MissingEntry(names[i], missingOf(texts[i]))]
  {
    var longer := MissingEntries(texts[..i + 1], names[..i + 1], missingOf);
    var shorter := MissingEntries(texts[..i], names[..i], missingOf);
    forall k | 0 <= k < i ensures longer[k] == shorter[k] {
      assert texts[..i + 1][k] == texts[..i][k] && names[..i + 1][k] == names[..i][k];
    }
    assert texts[..i + 1][i] == texts[i] && names[..i + 1][i] == names[i];
  }

  /** One entry per resume, in order, naming it and listing its missing keywords. */
  lemma MissingEntriesSound(jdText: string, texts: seq<string>, names: seq<string>,
                            extractKeywords: string -> set<string>)
    requires |names| == |texts|
    ensures var entries := MissingEntries(texts, names, MissingListOf(jdText, extractKeywords));
      |entries| == |names|
      && forall k :: 0 <= k < |names| ==>
           entries[k].filename == names[k]
           && SetOf(entries[k].missing) == MissingKeywords(jdText, texts[k], extractKeywords)
           && Distinct(entries[k].missing)
  {
    var entries := MissingEntries(texts, names, MissingListOf(jdText, extractKeywords));
    forall k | 0 <= k < |names|
      ensures entries[k].filename == names[k]
      ensures SetOf(entries[k].missing) == MissingKeywords(jdText, texts[k], extractKeywords)
      ensures Distinct(entries[k].missing)
    {
      ListingSet(MissingKeywords(jdText, texts[k], extractKeywords));
    }
  }

  /** The missing-keyword loop of `analyze`: one entry per kept resume, in order, with
      its name and the list `missingOf` gives for its text (in `analyze`,
      `list(missing_keywords(jd_text, text))`). */
  method ReportMissing(resumeTexts: seq<string>, filenames: seq<string>, missingOf: string -> seq<string>)
    returns (missingData: seq<MissingEntry>)
    requires |filenames| == |resumeTexts|
    ensures missingData == MissingEntries(resumeTexts, filenames, missingOf)
  {
    missingData := [];
    for i := 0 to |filenames|
      invariant missingData == MissingEntries(resumeTexts[..i], filenames[..i], missingOf)
    {
      MissingEntriesStep(resumeTexts, filenames, missingOf, i);
      var missing := missingOf(resumeTexts[i]);
      missingData := missingData + [MissingEntry(filenames[i], missing)];
    }
    assert resumeTexts[..|resumeTexts|] == resumeTexts;
    assert filenames[..|filenames|] == filenames;
  }
}
