# Resume ranker — a Dafny model

The system ranks uploaded resumes against a job description. A Flask endpoint,
`/analyze`, does the work in five steps:

1. It rejects incomplete requests.
2. It turns each accepted PDF or DOCX upload into plain text.
3. It scores every resume against the job description. The score is a blend of
   TF-IDF cosine similarity (70%) and keyword overlap (30%).
4. It sorts the resumes by score.
5. For each resume, it reports up to 15 of the job's keywords that the resume
   lacks. When there are more than 15, the longest ones are chosen; the report
   itself is a set, so it carries no order.

A separate helper sorts the skills found in a text into five fixed categories.

This project models that core in Dafny. It covers:

- the text normalisation;
- the score arithmetic and the ranking;
- the missing-keyword gap;
- the skill categoriser;
- the PDF and DOCX text assembly;
- the dispatcher and its validation heuristic;
- the upload gate;
- the request handler.

The model works on Python's semantics over ASCII text:

- `str.lower` and `str.isspace` as Python defines them;
- the regex classes `\s` and `\w`;
- `\b` word boundaries;
- `str.capitalize`, `str.title` and `str.strip`.

Scores are real numbers.

Everything the code takes from a library is a parameter of the model:

- spaCy keyword extraction;
- TF-IDF vectorisation and cosine similarity;
- `secure_filename`;
- pdfplumber and python-docx.

The model states what the code does for every result those libraries can return.
A library call that raises is modelled only where the code catches it:

- TF-IDF fitting, as a predicate on the normalised documents;
- reading a PDF or DOCX file (opening it or extracting its text), as a failure value of the file.

`extract_keywords` and `secure_filename` are total functions here.

Modules, one per concern:

| file | module | models |
|---|---|---|
| `wrappers.dfy` | `Wrappers` | `Option` |
| `text.dfy` | `Text` | Python string operations used by the core |
| `ordering.dfy` | `Ordering` | distinct sequences and a deterministic listing of a set, longest first |
| `normalizer.dfy` | `Normalizer` | `preprocess_text` |
| `similarity.dfy` | `Similarity` | `compute_similarity` |
| `keyword_gap.dfy` | `KeywordGap` | `missing_keywords` |
| `skills.dfy` | `Skills` | `get_skill_categories` |
| `extractor.dfy` | `Extractor` | `resume_extractor.py` |
| `app.dfy` | `App` | `allowed_file` and `analyze` |

Loops of the source are methods with loop invariants, each proved equal to a
specification function:

- `ExtractTextFromPdf` and `ExtractTextFromDocx`;
- the keyword loop of `compute_similarity`;
- the category loops of `get_skill_categories`;
- the collection and missing-keyword loops of `analyze`.

The properties are lemmas about those functions.

## Model

| member | source | states |
|---|---|---|
| Normalizer.PreprocessText | analyzer.py:17-24 | Empty input gives the empty string. Otherwise the result is normalised: only lower-case letters, digits, `+`, `#` and single blanks, with no blank at either end. Where the blanks go is stated by PreprocessSeparates and the collapse lemmas below. |
| Normalizer.PreprocessKeepsContent | analyzer.py:21-24 | Apart from blanks, the output is exactly the input's letters (lower-cased), digits, `+` and `#`, in input order. |
| Normalizer.ContentOf | analyzer.py:22 | The content of a text holds only letters, digits, `+` and `#`, and is no longer than the text. |
| Normalizer.BlankOutOthers | analyzer.py:22 | The result has the input's length. Letters, digits, whitespace, `+` and `#` stay in place, and every other character becomes a blank, so only those classes remain. |
| Normalizer.CollapseSpaces | analyzer.py:23 | The result is empty iff the input is. A leading whitespace run becomes one blank, and any other first character is kept. |
| Normalizer.CollapseConcat | analyzer.py:23 | Cut a text anywhere except inside a whitespace run: the two pieces collapse independently and their results concatenate. With CollapseRun and CollapseOne this fixes the result on every text. |
| Normalizer.CollapseRun | analyzer.py:23 | A non-empty whitespace run followed by a non-space (or by nothing) becomes exactly one blank, in the same place. |
| Normalizer.CollapseOne | analyzer.py:23 | A single non-whitespace character is kept as it is. |
| Normalizer.CollapseJoin | analyzer.py:23 | One whitespace character between a text not ending in whitespace and a text not starting with it becomes one blank, and each side collapses on its own. |
| Normalizer.PreprocessSeparates | analyzer.py:21-24 | Two words of letters, digits, `+` and `#`, joined by any other character (punctuation or whitespace), normalise to both words lower-cased with one blank between them. So `"a.b"` gives `"a b"` and `"C++/Java"` gives `"c++ java"`. |
| Normalizer.PreprocessEmptyIff | analyzer.py:17-24 | The result is empty exactly when the input has no letter, digit, `+` or `#`. |
| Normalizer.NormalizedUnchanged | analyzer.py:17-24 | Normalised text comes back unchanged. |
| Normalizer.PreprocessIdempotent | analyzer.py:17-24 | Preprocessing twice gives the same text as preprocessing once. |
| Normalizer.CollapseNoDoubleBlank | analyzer.py:23 | After `\s+` is replaced by one blank, no two blanks are adjacent. |
| Normalizer.CollapseChars | analyzer.py:23 | Collapsing adds only blanks. Every other character of the result is a non-whitespace character of the input. |
| Normalizer.CollapseKeeps | analyzer.py:23 | Collapsing keeps every non-whitespace character of the input. |
| Normalizer.CollapseUnchanged | analyzer.py:23 | Text whose only whitespace is single blanks is left unchanged by collapsing. |
| Text.Strip | analyzer.py:24 | The stripped text is empty iff the input is all whitespace. Otherwise it starts and ends with a non-whitespace character. Text.StripBounds states what is dropped. |
| Text.StripBounds | analyzer.py:24 | The stripped text is a contiguous slice of the input, and every character dropped before or after it is whitespace. |
| Text.StripUnchanged | analyzer.py:24 | Text without whitespace at either end is left unchanged by strip. |
| Text.Contains | analyzer.py:166 | `term in text` holds iff the term occurs at some position. |
| Text.ContainsWord | analyzer.py:150 | `re.search(r"\b" + re.escape(term) + r"\b", text)` succeeds iff the term occurs with a word boundary on both sides. |
| Text.CasingFoldsBack | analyzer.py:151-167 | Lower-casing the capitalised, upper-cased or title-cased form of a lower-case term gives the term back. |
| Text.TitleFoldsBack | analyzer.py:167 | Lower-casing the `str.title` form of a lower-case term gives the term back, whatever precedes it. |
| Similarity.KeywordOverlap | analyzer.py:53-55 | The ratio is in [0, 1]. For a non-empty job set it is the number of shared keywords divided by the job set's size. It is 0 iff nothing is shared. It is 1 iff the job set is non-empty and contained in the resume set. |
| Similarity.OverlapExample | analyzer.py:54-55 | Sharing one of three job keywords gives 1/3. |
| Similarity.KeywordScores | analyzer.py:50-56 | The loop yields one overlap ratio per resume, in resume order. |
| Similarity.Blend | analyzer.py:59-62 | The blend of a cosine and a keyword score is in [0, 1]. It is 0 iff both parts are 0. |
| Similarity.Scores | analyzer.py:45-66 | There is one final score per resume, each in [0, 1]. |
| Similarity.ScoreRows | analyzer.py:68-71 | There is one row per resume, in input order, carrying its filename and a Match % in [0, 100]. |
| Similarity.Table | analyzer.py:34-73 | The returned table holds exactly the score rows. Outside the all-blank path it is sorted by non-increasing Match %. |
| Similarity.InsertByMatch | analyzer.py:73 | Inserting a row into a table sorted by decreasing Match % keeps it sorted and adds exactly that row. |
| Similarity.SortByMatch | analyzer.py:73 | The sorted table is a permutation of the rows, with Match % non-increasing. |
| Similarity.ComputeSimilarity | analyzer.py:27-73 | The ranking is a permutation of the score rows, with Match % non-increasing. It also equals Table, which fixes the order of tied rows to one admissible order. |
| Similarity.TableRanksScoreRows | analyzer.py:34-35 | The table ranks the score rows. If every document is blank, each resume gets Match % 0, in input order. |
| Similarity.TableRowsInRange | analyzer.py:68-73 | Every ranked Match % is in [0, 100]. Every resume's row appears in the ranking. |
| Similarity.FallbackScoresFifty | analyzer.py:64-66 | When TF-IDF fails, every resume scores 50. |
| Similarity.BlendedScore | analyzer.py:59-70 | Otherwise resume i is ranked with 100 × (0.7 × cosine + 0.3 × keyword overlap). |
| KeywordGap.Filtered | analyzer.py:115-118 | The filtered keywords are job keywords missing from the resume, each longer than 2 characters and not all digits. Every such keyword is kept. |
| KeywordGap.MissingKeywords | analyzer.py:110-123 | Each reported keyword is a job keyword that the resume lacks. It is longer than 2 characters and not all digits. Exactly min(n, 15) are reported, where n is the number of such keywords. When n ≤ 15, all of them are reported. |
| KeywordGap.MissingAreLongest | analyzer.py:120-123 | No keyword left out is longer than a reported one. |
| KeywordGap.LongestKept | analyzer.py:121-123 | The first k of a longest-first listing of a set keep min(k, size) elements and never drop a longer one for a shorter one. |
| Ordering.Listing | analyzer.py:121 | The listing of a set has no repeats and is ordered by non-increasing length. |
| Ordering.ListingSet | analyzer.py:121 | The listing holds exactly the set's elements. |
| Skills.GetSkillCategories | analyzer.py:126-169 | The result has exactly the five category keys. Each key maps to the matched labels of its dictionary, found in the lower-cased text. |
| Skills.CollectCategory | analyzer.py:149-167 | The category loop appends, in dictionary order, the label of each term that is found. |
| Skills.DictionaryWellFormed | analyzer.py:138-147 | Each of the five dictionaries is lower-case and has no repeats. |
| Skills.MatchedComeFromTerms | analyzer.py:149-167 | Every listed label is the label of a term that was found. |
| Skills.FoundIsMatched | analyzer.py:149-167 | Every term that is found has its label listed. |
| Skills.MatchedIff | analyzer.py:149-167 | For a lower-case dictionary, a term's label is listed iff the term is found. |
| Skills.MatchedDistinct | analyzer.py:149-167 | No label is listed twice. |
| Skills.MatchedInOrder | analyzer.py:149-167 | Labels are listed in dictionary order. |
| Skills.Label | analyzer.py:151-167 | A label has its term's length. Lower-casing the label of a lower-case term gives the term back. |
| Skills.Found | analyzer.py:150-166 | A soft skill is found iff it occurs anywhere in the text. Any other term is found iff it occurs with a word boundary on both sides. |
| Skills.SoftSkillsTitled | analyzer.py:165-167 | In a soft skill made of lower-case words separated by blanks, the label upper-cases the first letter of each word and keeps every other character. So "problem solving" is listed as "Problem Solving". |
| Skills.ShortNamesInCapitals | analyzer.py:159-163 | Database names of at most 5 letters and tool names of at most 3 are shown in capitals ("MYSQL", "AWS"). Longer names are capitalised ("Docker"). |
| Skills.TrailingSymbolNeedsWordAfter | analyzer.py:150 | A term ending in a symbol is found only where a word character follows it. |
| Skills.LeadingSymbolNeedsWordBefore | analyzer.py:154 | A term starting with a symbol is found only where a word character precedes it. |
| Skills.SymbolTermsAlone | analyzer.py:149-155 | A text consisting only of "c++" does not list "C++". A text consisting only of ".net" does not list ".net". |
| Extractor.PdfText | resume_extractor.py:6-21 | The PDF text is stripped. It is empty iff reading failed or every page is blank. |
| Extractor.ExtractTextFromPdf | resume_extractor.py:6-21 | The page loop yields every page that has text, each followed by a newline, stripped at the end. An unreadable file yields "". |
| Extractor.PageLinesConcat | resume_extractor.py:11-14 | The page text of two runs of pages is the concatenation of their page texts. |
| Extractor.EmptyPageSkipped | resume_extractor.py:13-16 | A page without text does not change the result. |
| Extractor.PageLinesBlank | resume_extractor.py:11-14 | The assembled page text is blank iff every page is. |
| Extractor.NonBlank | resume_extractor.py:28 | The kept paragraphs are non-blank. None are kept iff every paragraph is blank. |
| Extractor.NonBlankConcat | resume_extractor.py:28 | The filter works piecewise and keeps order: the kept paragraphs of two runs are those of the first run followed by those of the second. |
| Extractor.NonBlankOne | resume_extractor.py:28 | A single paragraph is kept iff it is not blank. |
| Extractor.DocxText | resume_extractor.py:24-40 | The DOCX text is stripped. It is empty iff reading failed, or every paragraph and every table cell is blank. |
| Extractor.ExtractTextFromDocx | resume_extractor.py:24-40 | The result is the non-blank paragraphs joined by newlines, then each non-blank table cell after a newline, stripped. An unreadable file yields "". |
| Extractor.AppendRows | resume_extractor.py:32-35 | The row loop appends the cell lines of every row, in order. |
| Extractor.AppendCells | resume_extractor.py:33-35 | The cell loop appends a newline and the cell for each non-blank cell. |
| Extractor.CellLinesConcat | resume_extractor.py:31-35 | The cell lines of two runs of cells are the concatenation of their cell lines. |
| Extractor.TableLinesFlatten | resume_extractor.py:31-35 | The nested table loops equal one pass over all cells, table by table and row by row. |
| Extractor.CellLinesBlank | resume_extractor.py:33-35 | The cell text is blank iff every cell is blank. |
| Extractor.ValidateResumeText | resume_extractor.py:58-72 | Text shorter than 100 characters is not meaningful. Longer text is meaningful iff at least 2 of the resume words occur in it, lower-cased. |
| Extractor.WordCount | resume_extractor.py:70 | The count never exceeds the number of words looked for. |
| Extractor.CountIsDistinctWords | resume_extractor.py:69-70 | The counting sum equals the number of distinct resume words present. |
| Extractor.ResumeWordsDistinct | resume_extractor.py:64-68 | The resume word list has no repeats. |
| Extractor.ReaderFor | resume_extractor.py:45-51 | A name is read as PDF iff it ends in ".pdf" lower-cased, and as DOCX iff it ends in ".docx". |
| Extractor.DispatchUnambiguous | resume_extractor.py:45-48 | No name ends in both ".pdf" and ".docx". |
| Extractor.ExtractResumeText | resume_extractor.py:43-55 | An unsupported name yields "" and an unsupported-format warning. A PDF or DOCX yields its extracted text. It has a warning exactly when the validator rejects that text, and that warning is the not-meaningful one. |
| Extractor.UpperCasePdfDispatched | resume_extractor.py:45 | "CV.PDF" is read as a PDF. |
| Extractor.MixedCaseDocxDispatched | resume_extractor.py:47 | "cv.Docx" is read as a DOCX. |
| Extractor.DocNotDispatched | resume_extractor.py:49-51 | "cv.doc" is not supported. |
| App.AfterLastDot | app.py:19 | For a name with a dot, `rsplit('.', 1)[1]` is the dot-free suffix that directly follows the last dot. |
| App.AllowedFile | app.py:18-19 | A name passes the gate iff, lower-cased, it ends in ".pdf" or ".docx". |
| App.ExtensionGateIff | app.py:19 | The extension test "has a dot, and the part after the last dot, lower-cased, is pdf or docx" holds exactly when the lower-cased name ends in ".pdf" or ".docx". |
| App.GateMatchesDispatch | app.py:18-19 | The gate accepts exactly the names that are dispatched to the PDF or DOCX reader. |
| App.EndsWithExtension | app.py:19 | A name whose lower-cased form ends in a dot and a dot-free extension has that extension after its last dot. |
| App.SuffixAfterDot | app.py:19 | When a name ends in a dot followed by n dot-free characters, those characters are what follows the last dot. |
| App.UpperCaseExtensionAllowed | app.py:19 | "CV.PDF" passes the gate. |
| App.BareExtensionAllowed | app.py:19 | ".docx" passes the gate. |
| App.LastDotCounts | app.py:19 | "cv.pdf.txt" and "pdf" are refused. |
| App.JobText | app.py:29 | An absent job description gives "". A present one gives "" iff it is blank. Otherwise the result is stripped. |
| App.NoneSelected | app.py:37 | Definition, with no contract: the file list is empty, or its first entry has no name. Only the first entry is inspected. `App.Analyze` states the rejection in terms of it. |
| App.Accepted | app.py:42 | An upload is accepted iff it has a name and that name, lower-cased, ends in ".pdf" or ".docx". |
| App.Analyze | app.py:27-75 | The handler rejects, with 400 and the source's message, in this order: a blank job description, a missing resume field, an empty selection, and a batch yielding no text. Otherwise it answers with the ranking of the kept resumes and one missing-keyword entry per kept resume, in order, each listing its keywords once. It also gives the number kept, and exactly min(20, \|K\|) different job keywords taken from the set K extracted from the job description. |
| App.JdKeywordsListed | app.py:66 | The first 20 of the listed job keywords are min(20, \|K\|) different keywords, all from K. |
| App.Collected | app.py:40-51 | No more resumes are kept than were uploaded, and every kept resume has non-empty text. |
| App.CollectResumes | app.py:40-51 | The loop keeps, in upload order, the secured name and text of every accepted upload with non-empty text, in two parallel lists. |
| App.CollectedSound | app.py:40-51 | Every kept resume comes from an accepted upload and carries its secured name and non-empty text. No more resumes are kept than were uploaded. |
| App.CollectedConcat | app.py:41-51 | Collection keeps upload order across concatenated batches. |
| App.CollectedOne | app.py:42-51 | A single upload is kept iff it has a name, passes the gate and yields text. |
| App.Keep | app.py:49-51 | An upload contributes nothing iff it failed the gate or its text is empty; otherwise it contributes exactly one resume with its name and text. |
| App.ReportMissing | app.py:58-64 | The loop builds one entry per kept resume, in order, naming the resume and carrying the list the per-resume function gives for its text. `App.Analyze` passes `list(missing_keywords(jd_text, text))`. |
| App.MissingEntriesSound | app.py:58-64 | Entry k names resume k and lists exactly its missing keywords, each once. |

## Left out

- The spaCy pipeline inside `extract_keywords` (analyzer.py:76-107) is not modelled. Keyword extraction is a parameter, a function from text to a set of keywords. Every property holds for any such function.
- TF-IDF fitting and cosine similarity (analyzer.py:37-47) are parameters. The model takes whether fitting fails and one cosine in [0, 1] per resume.
- Floating point: scores are exact reals. `round(score * 100, 2)` is not modelled; the unrounded percentage is used.
- Similarity.Table: rows with equal Match % keep their input order, because the model sorts by stable insertion. pandas' default sort does not promise that order. The `rankings` of a modelled response are therefore one admissible order. Similarity.SortByMatch and Similarity.TableRanksScoreRows state only what holds for every order: a permutation with non-increasing Match %. Similarity.ComputeSimilarity ensures `ranking == Table(...)`, and so does App.Analyze through App.Reports. That clause fixes the model's one admissible order. ComputeSimilarity's other two ensures hold for every order.
- Ordering.Listing: Python sorts a set by length in the set's iteration order. That order depends on string hashing. The model breaks ties between equal-length keywords lexicographically. So `sorted_missing[:15]` keeps the same number of keywords, with the same length guarantee, but which of several equally long keywords is kept can differ.
- App.Analyze: `list(extract_keywords(jd_text))[:20]` and `list(missing)` depend on set iteration order. The model lists both sets longest first. So which 20 job keywords are reported, and the order of both lists, is one admissible choice. The contract states how many job keywords there are, that they have no repeats and come from the job description, and that each missing list holds the reported keywords once each.
- `secure_filename` is a parameter (a function on names). Saving to a temporary file and deleting it again (app.py:44-47) is not modelled. Each upload carries what the PDF or DOCX library would read from it.
- pdfplumber and python-docx parsing is not modelled. A PDF is a list of page texts; a page whose `extract_text()` returns nothing is the empty string. A DOCX is its paragraph texts and table cell texts. A file the library cannot read is a separate constructor that yields "". It stands for a failure anywhere in reading: opening the file, or the page, paragraph or table loop.
- The `print` diagnostics are left out, apart from the dispatcher's two warnings (unsupported format, text not meaningful), which the model returns as values.
- Flask itself is not modelled: routing, `index`, `MAX_CONTENT_LENGTH`, `SECRET_KEY` and JSON encoding. The request is a value holding the optional form field and the optional file list. The response is a value.
- The catch-all `except` returning status 500 (app.py:77-80) is not modelled. No modelled operation raises.
- Unicode: characters are treated as ASCII for case mapping, whitespace and word characters. Python applies Unicode rules to non-ASCII text.
- `preprocess_text(None)` is not modelled. Text is always a string, and the empty string takes the early return.
- Skills.GetSkillCategories: the result is a Dafny `map`, so the fixed key order of the source's dict is not kept. Nothing in the core iterates over that dict.
- Skills.CollectCategory: takes the category's dictionary as a parameter. `GetSkillCategories` passes the dictionary of the source, so the loop is proved for any term list.
- The `extract_keywords` regex of technical terms (analyzer.py:85-92) belongs to the spaCy-side keyword extraction, which is not modelled.
