/**
 * resume_extractor.py: assembling the text of a PDF from its pages and of a DOCX from
 * its paragraphs and table cells, dispatching on the file extension, and the
 * "meaningful resume" heuristic.  What pdfplumber and python-docx read from the file is
 * given to the model as a value.
 */
module Extractor {
  import opened Wrappers
  import opened Text
  import opened Ordering

  // ---------- PDF ----------

  /** What pdfplumber yields for a file: the text of each page (the empty string for a
      page without extractable text), or a failure anywhere while reading. */
  datatype Pdf = PdfFailed | PdfPages(pages: seq<string>)

  /** The accumulated `text` before the final strip: `page_text + "\n"` for every page
      with text, in page order. */
  function PageLines(pages: seq<string>): string {
    if pages == [] then ""
    else
      var last := pages[|pages| - 1];
      PageLines(pages[..|pages| - 1]) + if last != "" then last + "\n" else ""
  }

  /** The text `extract_text_from_pdf` returns: stripped, and empty exactly when reading
      failed or every page is blank. */
  function PdfText(pdf: Pdf): (text: string)
    ensures text == "" <==> pdf.PdfFailed? || forall i :: 0 <= i < |pdf.pages| ==> IsBlank(pdf.pages[i])
    ensures text != "" ==> !IsSpace(text[0]) && !IsSpace(text[|text| - 1])
  {
    match pdf
    case PdfFailed => ""
    case PdfPages(pages) =>
      PageLinesBlank(pages);
      Strip(PageLines(pages))
  }

  /** `extract_text_from_pdf`: appends every page's text and a newline, skipping pages
      without text, then strips; a failure yields the empty string. */
  method ExtractTextFromPdf(pdf: Pdf) returns (text: string)
    ensures text == PdfText(pdf)
  {
    if pdf.PdfFailed? {
      return "";
    }
    var pages := pdf.pages;
    text := "";
    for i := 0 to |pages|
      invariant text == PageLines(pages[..i])
    {
      assert pages[..i + 1][..i] == pages[..i];
      if pages[i] != "" {
        text := text + pages[i] + "\n";
      }
    }
    assert pages[..|pages|] == pages;
    text := Strip(text);
  }

  /** Page texts are assembled piecewise: the pages of two runs give the text of the
      first run followed by that of the second. */
  lemma {:induction false} PageLinesConcat(a: seq<string>, b: seq<string>)
    ensures PageLines(a + b) == PageLines(a) + PageLines(b)
    decreases |b|
  {
    if b != [] {
      var b' := b[..|b| - 1];
      assert (a + b)[..|a + b| - 1] == a + b';
      PageLinesConcat(a, b');
    } else {
      assert a + b == a;
    }
  }

  /** A page without text leaves no trace, wherever it is. */
  lemma EmptyPageSkipped(a: seq<string>, b: seq<string>)
    ensures PdfText(PdfPages(a + [""] + b)) == PdfText(PdfPages(a + b))
  {
    assert (a + [""])[..|a|] == a;
    assert PageLines(a + [""]) == PageLines(a);
    PageLinesConcat(a + [""], b);
    PageLinesConcat(a, b);
    assert PageLines(a + [""] + b) == PageLines(a + b);
  }

  /** The assembled page text is blank exactly when every page is. */
  lemma {:induction false} PageLinesBlank(pages: seq<string>)
    ensures IsBlank(PageLines(pages)) <==> forall i :: 0 <= i < |pages| ==> IsBlank(pages[i])
    decreases |pages|
  {
    if pages != [] {
      var init := pages[..|pages| - 1];
      var last := pages[|pages| - 1];
      PageLinesBlank(init);
      var tail := if last != "" then last + "\n" else "";
      BlankConcat(PageLines(init), tail);
      BlankConcat(last, "\n");
      assert forall i :: 0 <= i < |init| ==> init[i] == pages[i];
    }
  }

  // ---------- DOCX ----------

  /** A table as python-docx yields it: rows of cell texts. */
  type Table = seq<seq<string>>

  /** What python-docx yields for a file: paragraph texts and tables, or a failure
      anywhere while reading. */
  datatype Docx = DocxFailed | DocxDocument(paragraphs: seq<string>, tables: seq<Table>)

  /** `[p for p in paragraphs if p.strip()]` */
  function NonBlank(parts: seq<string>): (r: seq<string>)
    ensures forall i :: 0 <= i < |r| ==> !IsBlank(r[i])
    ensures r == [] <==> forall i :: 0 <= i < |parts| ==> IsBlank(parts[i])
  {
    if parts == [] then []
    else
      var init := parts[..|parts| - 1];
      var last := parts[|parts| - 1];
      assert forall i :: 0 <= i < |init| ==> init[i] == parts[i];
      NonBlank(init) + if IsBlank(last) then [] else [last]
  }

  /** The filter keeps order and works piecewise: filtering two runs of paragraphs
      gives the kept paragraphs of the first run followed by those of the second. */
  lemma {:induction false} NonBlankConcat(a: seq<string>, b: seq<string>)
    ensures NonBlank(a + b) == NonBlank(a) + NonBlank(b)
    decreases |b|
  {
    if b != [] {
      var b' := b[..|b| - 1];
      assert (a + b)[..|a + b| - 1] == a + b';
      NonBlankConcat(a, b');
    } else {
      assert a + b == a;
    }
  }

  /** A single paragraph is kept exactly when it is not blank. */
  lemma NonBlankOne(p: string)
    ensures NonBlank([p]) == if IsBlank(p) then [] else [p]
  {
    assert [p][..0] == [];
  }

  /** `"\n".join(parts)` */
  function JoinLines(parts: seq<string>): string {
    if parts == [] then ""
    else if |parts| == 1 then parts[0]
    else JoinLines(parts[..|parts| - 1]) + "\n" + parts[|parts| - 1]
  }

  /** `"\n" + cell` for every non-blank cell, in order. */
  function CellLines(cells: seq<string>): string {
    if cells == [] then ""
    else
      var last := cells[|cells| - 1];
      CellLines(cells[..|cells| - 1]) + if IsBlank(last) then "" else "\n" + last
  }

  /** What the row loop appends for a table. */
  function RowLines(rows: Table): string {
    if rows == [] then "" else RowLines(rows[..|rows| - 1]) + CellLines(rows[|rows| - 1])
  }

  /** What the table loop appends for all tables. */
  function TableLines(tables: seq<Table>): string {
    if tables == [] then "" else TableLines(tables[..|tables| - 1]) + RowLines(tables[|tables| - 1])
  }

  /** The text `extract_text_from_docx` returns: stripped, and empty exactly when
      reading failed or every paragraph and every table cell is blank. */
  function DocxText(doc: Docx): (text: string)
    ensures text == "" <==>
      (|| doc.DocxFailed?
       || ((forall i :: 0 <= i < |doc.paragraphs| ==> IsBlank(doc.paragraphs[i])) &&
           (forall i :: 0 <= i < |Cells(doc.tables)| ==> IsBlank(Cells(doc.tables)[i]))))
    ensures text != "" ==> !IsSpace(text[0]) && !IsSpace(text[|text| - 1])
  {
    match doc
    case DocxFailed => ""
    case DocxDocument(paragraphs, tables) =>
      var joined := JoinLines(NonBlank(paragraphs));
      BlankConcat(joined, TableLines(tables));
      JoinLinesBlank(NonBlank(paragraphs));
      TableLinesFlatten(tables);
      CellLinesBlank(Cells(tables));
      Strip(joined + TableLines(tables))
  }

  /** `extract_text_from_docx`: joins the non-blank paragraphs with newlines, then appends
      a newline and the unstripped text of every non-blank cell, table by table, row by
      row, and strips; a failure yields the empty string. */
  method ExtractTextFromDocx(doc: Docx) returns (text: string)
    ensures text == DocxText(doc)
  {
    if doc.DocxFailed? {
      return "";
    }
    var tables := doc.tables;
    text := JoinLines(NonBlank(doc.paragraphs));
    ghost var base := text;
    for t := 0 to |tables|
      invariant text == base + TableLines(tables[..t])
    {
      assert tables[..t + 1][..t] == tables[..t];
      text := AppendRows(text, tables[t]);
    }
    assert tables[..|tables|] == tables;
    text := Strip(text);
  }

  /** The row loop of `extract_text_from_docx` for one table. */
  method AppendRows(text: string, rows: Table) returns (r: string)
    ensures r == text + RowLines(rows)
  {
    r := text;
    for k := 0 to |rows|
      invariant r == text + RowLines(rows[..k])
    {
      assert rows[..k + 1][..k] == rows[..k];
      r := AppendCells(r, rows[k]);
    }
    assert rows[..|rows|] == rows;
  }

  /** The cell loop of `extract_text_from_docx` for one row: a newline and the cell's
      text for every non-blank cell. */
  method AppendCells(text: string, cells: seq<string>) returns (r: string)
    ensures r == text + CellLines(cells)
  {
    r := text;
    for k := 0 to |cells|
      invariant r == text + CellLines(cells[..k])
    {
      assert cells[..k + 1][..k] == cells[..k];
      if !IsBlank(cells[k]) {
        r := r + "\n" + cells[k];
      }
    }
    assert cells[..|cells|] == cells;
  }

  /** All cells of a row list, row by row. */
  function RowCells(rows: Table): seq<string> {
    if rows == [] then [] else RowCells(rows[..|rows| - 1]) + rows[|rows| - 1]
  }

  /** All cells of all tables, table by table, row by row. */
  function Cells(tables: seq<Table>): seq<string> {
    if tables == [] then [] else Cells(tables[..|tables| - 1]) + RowCells(tables[|tables| - 1])
  }

  lemma {:induction false} CellLinesConcat(a: seq<string>, b: seq<string>)
    ensures CellLines(a + b) == CellLines(a) + CellLines(b)
    decreases |b|
  {
    if b != [] {
      var b' := b[..|b| - 1];
      assert (a + b)[..|a + b| - 1] == a + b';
      CellLinesConcat(a, b');
    } else {
      assert a + b == a;
    }
  }

  lemma {:induction false} RowLinesFlatten(rows: Table)
    ensures RowLines(rows) == CellLines(RowCells(rows))
    decreases |rows|
  {
    if rows != [] {
      RowLinesFlatten(rows[..|rows| - 1]);
      CellLinesConcat(RowCells(rows[..|rows| - 1]), rows[|rows| - 1]);
    }
  }

  /** The nested table, row and cell loops append exactly what one loop over all cells
      in table, row, cell order would. */
  lemma {:induction false} TableLinesFlatten(tables: seq<Table>)
    ensures TableLines(tables) == CellLines(Cells(tables))
    decreases |tables|
  {
    if tables != [] {
      TableLinesFlatten(tables[..|tables| - 1]);
      RowLinesFlatten(tables[|tables| - 1]);
      CellLinesConcat(Cells(tables[..|tables| - 1]), RowCells(tables[|tables| - 1]));
    }
  }

  lemma {:induction false} JoinLinesBlank(parts: seq<string>)
    requires forall i :: 0 <= i < |parts| ==> !IsBlank(parts[i])
    ensures IsBlank(JoinLines(parts)) <==> parts == []
    decreases |parts|
  {
    if |parts| > 1 {
      var init := parts[..|parts| - 1];
      BlankConcat(JoinLines(init) + "\n", parts[|parts| - 1]);
    }
  }

  lemma {:induction false} CellLinesBlank(cells: seq<string>)
    ensures IsBlank(CellLines(cells)) <==> forall i :: 0 <= i < |cells| ==> IsBlank(cells[i])
    decreases |cells|
  {
    if cells != [] {
      var init := cells[..|cells| - 1];
      var last := cells[|cells| - 1];
      CellLinesBlank(init);
      var tail := if IsBlank(last) then "" else "\n" + last;
      BlankConcat(CellLines(init), tail);
      BlankConcat("\n", last);
      assert forall i :: 0 <= i < |init| ==> init[i] == cells[i];
    }
  }

  // ---------- validation ----------

  /** The words whose presence marks a text as a resume. */
  const ResumeWords: seq<string> :=
    ["experience", "education", "skills", "projects", "work", "university", "college", "degree"]

  /** Shorter texts are never meaningful. */
  const MinLength: nat := 100

  /** How many different resume words a meaningful text must contain. */
  const MinWords: nat := 2

  /** `sum(1 for kw in words if kw in text_lower)` */
  function WordCount(words: seq<string>, textLower: string): (count: nat)
    ensures count <= |words|
  {
    if words == [] then 0
    else WordCount(words[..|words| - 1], textLower) + if Contains(textLower, words[|words| - 1]) then 1 else 0
  }

  /** The resume words occurring in the lower-cased text. */
  function WordsPresent(textLower: string): set<string> {
    set w | w in ResumeWords && Contains(textLower, w)
  }

  /** `validate_resume_text`: never for a text of fewer than 100 characters; otherwise
      exactly when at least two different resume words occur in it, ignoring case. */
  function ValidateResumeText(text: string): (meaningful: bool)
    ensures |text| < MinLength ==> !meaningful
    ensures |text| >= MinLength ==> (meaningful <==> |WordsPresent(Lower(text))| >= MinWords)
  {
    if text == [] || |text| < MinLength then false
    else
      ResumeWordsDistinct();
      CountIsDistinctWords(ResumeWords, Lower(text));
      assert SetOf(ResumeWords) == set w | w in ResumeWords;
      WordCount(ResumeWords, Lower(text)) >= MinWords
  }

  lemma ResumeWordsDistinct()
    ensures Distinct(ResumeWords)
  {
  }

  /** Counting words of a list without repetitions counts the distinct words present:
      a word occurring many times counts once. */
  lemma {:induction false} CountIsDistinctWords(words: seq<string>, textLower: string)
    requires Distinct(words)
    ensures WordCount(words, textLower) == |set w | w in words && Contains(textLower, w)|
    decreases |words|
  {
    if words != [] {
      var init := words[..|words| - 1];
      var last := words[|words| - 1];
      CountIsDistinctWords(init, textLower);
      var before := set w | w in init && Contains(textLower, w);
      var after := set w | w in words && Contains(textLower, w);
      assert last !in init;
      assert words == init + [last];
      if Contains(textLower, last) {
        assert after == before + {last};
      } else {
        assert after == before;
      }
    }
  }

  // ---------- dispatch ----------

  /** The reader `extract_resume_text` picks for a file name. */
  datatype Reader = PdfReader | DocxReader | Unsupported

  /** Dispatch on the lower-cased file name: `.pdf`, then `.docx`, else unsupported. */
  function ReaderFor(filename: string): (reader: Reader)
    ensures reader == PdfReader <==> EndsWith(Lower(filename), ".pdf")
    ensures reader == DocxReader <==> EndsWith(Lower(filename), ".docx")
  {
    DispatchUnambiguous(filename);
    if EndsWith(Lower(filename), ".pdf") then PdfReader
    else if EndsWith(Lower(filename), ".docx") then DocxReader
    else Unsupported
  }

  /** What the two libraries make of the saved file; only the one the dispatcher picks
      is consulted. */
  datatype SavedFile = SavedFile(asPdf: Pdf, asDocx: Docx)

  /** The warnings `extract_resume_text` prints. */
  datatype Warning = UnsupportedFormat | NotMeaningful

  /** The outcome of `extract_resume_text`: the text and the warning printed, if any. */
  datatype Extraction = Extraction(text: string, warning: Option<Warning>)

  /** `extract_resume_text(file_path, filename)` */
  function ExtractResumeText(file: SavedFile, filename: string): (r: Extraction)
    ensures ReaderFor(filename) == Unsupported ==> r == Extraction("", Some(UnsupportedFormat))
    ensures ReaderFor(filename) == PdfReader ==> r.text == PdfText(file.asPdf)
    ensures ReaderFor(filename) == DocxReader ==> r.text == DocxText(file.asDocx)
    ensures ReaderFor(filename) != Unsupported ==>
      (r.warning == None <==> ValidateResumeText(r.text))
    ensures ReaderFor(filename) != Unsupported && !ValidateResumeText(r.text) ==>
      r.warning == Some(NotMeaningful)
  {
    var text := match ReaderFor(filename)
      case PdfReader => PdfText(file.asPdf)
      case DocxReader => DocxText(file.asDocx)
      case Unsupported => "";
    if ReaderFor(filename) == Unsupported then Extraction("", Some(UnsupportedFormat))
    else if !ValidateResumeText(text) then Extraction(text, Some(NotMeaningful))
    else Extraction(text, None)
  }

  /** A name cannot end in both `.pdf` and `.docx`: the dispatch is unambiguous. */
  lemma DispatchUnambiguous(filename: string)
    ensures !(EndsWith(Lower(filename), ".pdf") && EndsWith(Lower(filename), ".docx"))
  {
    var l := Lower(filename);
    if EndsWith(l, ".pdf") {
      assert l[|l| - 1] == 'f';
      if |l| >= 5 {
        assert l[|l| - 5..][4] == l[|l| - 1];
      }
    }
  }

  /** The extension test ignores case. */
  lemma UpperCasePdfDispatched()
    ensures ReaderFor("CV.PDF") == PdfReader
  {
    assert Lower("CV.PDF") == "cv.pdf";
  }

  lemma MixedCaseDocxDispatched()
    ensures ReaderFor("cv.Docx") == DocxReader
  {
    assert Lower("cv.Docx") == "cv.docx";
  }

  /** An old Word `.doc` file is not supported. */
  lemma DocNotDispatched()
    ensures ReaderFor("cv.doc") == Unsupported
  {
    LowerOfLowerCase("cv.doc");
    assert "cv.doc"[2..] == ".doc" && "cv.doc"[1..] == "v.doc";
  }
}
