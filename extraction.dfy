/**
 * Text extraction from an e-mail attachment: the string assembly done on top of the
 * PDF, OCR and Word libraries, and the choice of extractor by file extension.
 * What the libraries return (page texts, OCR strings, paragraphs and table cells) is
 * taken as input.
 */
module Extraction {
  import opened Wrappers
  import opened Text

  // ---------------------------------------------------------- digital PDF

  /** `page.extract_text() or ""`: a page without a text layer contributes nothing. */
  function PageText(page: Option<string>): string {
    page.GetOr("")
  }

  /** `extract_text_from_pdf`: the page texts, concatenated in page order. */
  function DigitalPdfText(pages: seq<Option<string>>): string
    decreases |pages|
  {
    if pages == [] then "" else DigitalPdfText(pages[..|pages| - 1]) + PageText(pages[|pages| - 1])
  }

  /** The text of a document is the text of its first pages followed by that of the rest. */
  lemma {:induction false} DigitalPdfAppend(p: seq<Option<string>>, q: seq<Option<string>>)
    ensures DigitalPdfText(p + q) == DigitalPdfText(p) + DigitalPdfText(q)
    decreases |q|
  {
    if q == [] {
      assert p + q == p;
    } else {
      var q' := q[..|q| - 1];
      assert (p + q)[..|p + q| - 1] == p + q';
      DigitalPdfAppend(p, q');
    }
  }

  /** A page without a text layer changes nothing, wherever it is. */
  lemma MissingPageAddsNothing(p: seq<Option<string>>, q: seq<Option<string>>)
    ensures DigitalPdfText(p + [None] + q) == DigitalPdfText(p + q)
  {
    DigitalPdfAppend(p + [None], q);
    DigitalPdfAppend(p, [None]);
    DigitalPdfAppend(p, q);
    var none: seq<Option<string>> := [None];
    assert none[..0] == [];
  }

  /** The text is exactly as long as the page texts together. */
  lemma {:induction false} DigitalPdfLength(pages: seq<Option<string>>)
    ensures |DigitalPdfText(pages)| == TextLength(pages)
    decreases |pages|
  {
    if pages != [] {
      DigitalPdfLength(pages[..|pages| - 1]);
    }
  }

  function TextLength(pages: seq<Option<string>>): nat
    decreases |pages|
  {
    if pages == [] then 0 else TextLength(pages[..|pages| - 1]) + |PageText(pages[|pages| - 1])|
  }

  // ---------------------------------------------------------- scanned PDF

  /** The line written before the OCR text of page `n` (numbered from 1). */
  function PageMarker(n: nat): string {
    "\n--- Page " + NatToString(n) + " ---\n"
  }

  /** The number in a page marker reads back as the page number. */
  lemma MarkerNumber(n: nat)
    ensures var m := PageMarker(n); 15 < |m| && ParseDigits(m[10..|m| - 5]) == n
  {
    var m := PageMarker(n);
    assert m[10..|m| - 5] == NatToString(n);
    ParseNatToString(n);
  }

  /** OCR texts of consecutive pages, the first one numbered `first`, each after its marker. */
  function MarkedPages(ocr: seq<string>, first: nat): string
    decreases |ocr|
  {
    if ocr == [] then "" else PageMarker(first) + ocr[0] + MarkedPages(ocr[1..], first + 1)
  }

  /** One more page at the end adds its marker and its text at the end. */
  lemma {:induction false} MarkedPagesSnoc(ocr: seq<string>, first: nat, page: string)
    ensures MarkedPages(ocr + [page], first) == MarkedPages(ocr, first) + PageMarker(first + |ocr|) + page
    decreases |ocr|
  {
    if ocr == [] {
      assert MarkedPages([page], first) == PageMarker(first) + page + MarkedPages([], first + 1);
    } else {
      var head := PageMarker(first) + ocr[0];
      TailSnoc(ocr, page);
      MarkedPagesSnoc(ocr[1..], first + 1, page);
      AppendAssoc3(head, MarkedPages(ocr[1..], first + 1), PageMarker(first + |ocr|), page);
    }
  }

  lemma TailSnoc<T>(s: seq<T>, x: T)
    requires s != []
    ensures (s + [x])[0] == s[0] && (s + [x])[1..] == s[1..] + [x]
  {
  }

  lemma AppendAssoc3<T>(a: seq<T>, b: seq<T>, c: seq<T>, d: seq<T>)
    ensures a + (b + c + d) == a + b + c + d
  {
  }

  /** Page `i` (from 0) is written as the marker with number `i + 1` followed by its OCR
      text, after all earlier pages and before all later ones. */
  lemma {:induction false} PageInPlace(ocr: seq<string>, first: nat, i: nat)
    requires i < |ocr|
    ensures MarkedPages(ocr, first)
      == MarkedPages(ocr[..i], first) + PageMarker(first + i) + ocr[i] + MarkedPages(ocr[i + 1..], first + i + 1)
    decreases i
  {
    if i == 0 {
      FirstPageInPlace(ocr, first);
    } else {
      PageInPlace(ocr[1..], first + 1, i - 1);
      assert ocr[1..][i - 1] == ocr[i] && ocr[1..][i..] == ocr[i + 1..];
      assert ocr[..i][0] == ocr[0] && ocr[..i][1..] == ocr[1..][..i - 1];
      MarkedPagesCons(ocr, first, i);
    }
  }

  lemma FirstPageInPlace(ocr: seq<string>, first: nat)
    requires ocr != []
    ensures MarkedPages(ocr, first)
      == MarkedPages(ocr[..0], first) + PageMarker(first) + ocr[0] + MarkedPages(ocr[1..], first + 1)
  {
    assert MarkedPages(ocr[..0], first) == [];
  }

  /** Putting the first page in front of the split of the remaining pages. */
  lemma MarkedPagesCons(ocr: seq<string>, first: nat, i: nat)
    requires 0 < i < |ocr|
    requires ocr[..i][0] == ocr[0] && ocr[..i][1..] == ocr[1..][..i - 1]
    requires MarkedPages(ocr[1..], first + 1)
      == MarkedPages(ocr[1..][..i - 1], first + 1) + PageMarker(first + i) + ocr[i] + MarkedPages(ocr[i + 1..], first + i + 1)
    ensures MarkedPages(ocr, first)
      == MarkedPages(ocr[..i], first) + PageMarker(first + i) + ocr[i] + MarkedPages(ocr[i + 1..], first + i + 1)
  {
    var head := PageMarker(first) + ocr[0];
    AppendAssoc4(head, MarkedPages(ocr[1..][..i - 1], first + 1), PageMarker(first + i), ocr[i],
      MarkedPages(ocr[i + 1..], first + i + 1));
  }

  lemma AppendAssoc4<T>(a: seq<T>, b: seq<T>, c: seq<T>, d: seq<T>, e: seq<T>)
    ensures a + (b + c + d + e) == a + b + c + d + e
  {
  }

  /** `extract_text_from_scanned_pdf`: the OCR text of every page after its marker. */
  method ScannedPdfText(ocr: seq<string>) returns (text: string)
    ensures text == MarkedPages(ocr, 1)
  {
    text := "";
    for i := 0 to |ocr|
      invariant text == MarkedPages(ocr[..i], 1)
    {
      MarkedPagesSnoc(ocr[..i], 1, ocr[i]);
      assert ocr[..i + 1] == ocr[..i] + [ocr[i]];
      text := text + PageMarker(i + 1) + ocr[i];
    }
    assert ocr[..|ocr|] == ocr;
  }

  // ------------------------------------------------------------------ DOCX

  /** The text of one table row: its cells joined by a space. */
  function RowText(cells: seq<string>): string {
    Join(" ", cells)
  }

  /** Every row on a line of its own: a newline, then the row's text. */
  function RowsText(rows: seq<seq<string>>): string
    decreases |rows|
  {
    if rows == [] then "" else "\n" + RowText(rows[0]) + RowsText(rows[1..])
  }

  /** The rows of all tables, table after table. */
  function Flatten(tables: seq<seq<seq<string>>>): seq<seq<string>>
    decreases |tables|
  {
    if tables == [] then [] else tables[0] + Flatten(tables[1..])
  }

  lemma {:induction false} RowsTextSnoc(rows: seq<seq<string>>, row: seq<string>)
    ensures RowsText(rows + [row]) == RowsText(rows) + "\n" + RowText(row)
    decreases |rows|
  {
    if rows == [] {
      assert ([row])[1..] == [];
    } else {
      assert (rows + [row])[1..] == rows[1..] + [row];
      RowsTextSnoc(rows[1..], row);
    }
  }

  lemma {:induction false} FlattenSnoc(tables: seq<seq<seq<string>>>, table: seq<seq<string>>)
    ensures Flatten(tables + [table]) == Flatten(tables) + table
    decreases |tables|
  {
    if tables == [] {
      assert ([table])[1..] == [];
    } else {
      assert (tables + [table])[1..] == tables[1..] + [table];
      FlattenSnoc(tables[1..], table);
    }
  }

  /** What `extract_text_from_docx` returns: the paragraphs joined by newlines, then every
      row of every table on a line of its own. */
  function DocxTextOf(paragraphs: seq<string>, tables: seq<seq<seq<string>>>): string {
    Join("\n", paragraphs) + RowsText(Flatten(tables))
  }

  /** `extract_text_from_docx` on the paragraph texts and the cell texts of every table. */
  method DocxText(paragraphs: seq<string>, tables: seq<seq<seq<string>>>) returns (text: string)
    ensures text == DocxTextOf(paragraphs, tables)
  {
    var lead := Join("\n", paragraphs);
    text := lead;
    ghost var done: seq<seq<string>> := [];
    for t := 0 to |tables|
      invariant done == Flatten(tables[..t])
      invariant text == lead + RowsText(done)
    {
      var rows := tables[t];
      assert done + rows[..0] == done;
      for r := 0 to |rows|
        invariant text == lead + RowsText(done + rows[..r])
      {
        RowAdded(lead, done, rows, r);
        text := text + "\n" + RowText(rows[r]);
      }
      assert rows[..|rows|] == rows;
      TableAdded(tables, t);
      done := done + rows;
    }
    assert tables[..|tables|] == tables;
  }

  /** The inner loop's step: one more row of the current table. */
  lemma RowAdded(lead: string, done: seq<seq<string>>, rows: seq<seq<string>>, r: nat)
    requires r < |rows|
    ensures lead + RowsText(done + rows[..r]) + "\n" + RowText(rows[r]) == lead + RowsText(done + rows[..r + 1])
  {
    assert done + rows[..r + 1] == (done + rows[..r]) + [rows[r]];
    RowsTextSnoc(done + rows[..r], rows[r]);
  }

  /** The outer loop's step: the rows of one more table. */
  lemma TableAdded(tables: seq<seq<seq<string>>>, t: nat)
    requires t < |tables|
    ensures Flatten(tables[..t + 1]) == Flatten(tables[..t]) + tables[t]
  {
    assert tables[..t + 1] == tables[..t] + [tables[t]];
    FlattenSnoc(tables[..t], tables[t]);
  }

  /** No cell of the row holds a newline. */
  predicate SingleLineRow(row: seq<string>) {
    forall j :: 0 <= j < |row| ==> '\n' !in row[j]
  }

  /** With no newline in any cell, the rows split back line by line after `lead`. */
  lemma {:induction false} SplitRows(lead: string, rows: seq<seq<string>>)
    requires '\n' !in lead
    requires forall i :: 0 <= i < |rows| ==> SingleLineRow(rows[i])
    ensures SplitOn(lead + RowsText(rows), '\n') == [lead] + RowLines(rows)
    decreases |rows|
  {
    if rows == [] {
      assert lead + "" == lead;
      assert IndexOf(lead, '\n') == |lead|;
    } else {
      var first := RowText(rows[0]);
      assert '\n' !in first by {
        NotInJoin(" ", rows[0], '\n');
      }
      assert forall i :: 0 <= i < |rows[1..]| ==> rows[1..][i] == rows[i + 1];
      SplitRows(first, rows[1..]);
      RowLineStep(lead, rows);
    }
  }

  /** One row more: the text after `lead` and its newline splits as the first row's line
      followed by the lines of the rest. */
  lemma RowLineStep(lead: string, rows: seq<seq<string>>)
    requires '\n' !in lead && rows != []
    requires SplitOn(RowText(rows[0]) + RowsText(rows[1..]), '\n') == [RowText(rows[0])] + RowLines(rows[1..])
    ensures SplitOn(lead + RowsText(rows), '\n') == [lead] + RowLines(rows)
  {
    var first, more := RowText(rows[0]), RowsText(rows[1..]);
    assert RowsText(rows) == "\n" + first + more;
    AppendAssoc("\n", first, more);
    AppendAssoc(lead, "\n", first + more);
    SplitOnAppend(lead, '\n', first + more);
  }

  /** The text of every row, in order. */
  function RowLines(rows: seq<seq<string>>): (lines: seq<string>)
    ensures |lines| == |rows|
    decreases |rows|
  {
    if rows == [] then [] else [RowText(rows[0])] + RowLines(rows[1..])
  }

  /** Splitting joined paragraphs followed by `tail` at newlines: the paragraphs before
      the last come back one by one, the last one continues into `tail`. */
  lemma {:induction false} SplitParagraphs(paragraphs: seq<string>, tail: string)
    requires paragraphs != []
    requires forall k :: 0 <= k < |paragraphs| ==> '\n' !in paragraphs[k]
    ensures SplitOn(Join("\n", paragraphs) + tail, '\n')
      == paragraphs[..|paragraphs| - 1] + SplitOn(paragraphs[|paragraphs| - 1] + tail, '\n')
    decreases |paragraphs|
  {
    if |paragraphs| > 1 {
      var first, rest := paragraphs[0], paragraphs[1..];
      var last := paragraphs[|paragraphs| - 1];
      var joined := Join("\n", rest) + tail;
      var lines := SplitOn(last + tail, '\n');
      assert SplitOn(joined, '\n') == rest[..|rest| - 1] + lines by {
        assert rest[|rest| - 1] == last;
        SplitParagraphs(rest, tail);
      }
      assert '\n' !in first;
      calc {
        SplitOn(Join("\n", paragraphs) + tail, '\n');
        { assert Join("\n", paragraphs) == first + "\n" + Join("\n", rest);
          AppendAssoc(first + "\n", Join("\n", rest), tail); }
        SplitOn(first + ['\n'] + joined, '\n');
        { SplitOnAppend(first, '\n', joined); }
        [first] + SplitOn(joined, '\n');
        [first] + (rest[..|rest| - 1] + lines);
        { AppendAssoc([first], rest[..|rest| - 1], lines); }
        ([first] + rest[..|rest| - 1]) + lines;
        { DropLastCons(paragraphs); }
        paragraphs[..|paragraphs| - 1] + lines;
      }
    }
  }

  /** When no paragraph and no cell holds a newline, the lines of the document text are the
      paragraphs (a single empty line when there are none) followed by one line per table
      row, table after table. */
  lemma DocxLines(paragraphs: seq<string>, tables: seq<seq<seq<string>>>)
    requires forall k :: 0 <= k < |paragraphs| ==> '\n' !in paragraphs[k]
    requires forall i :: 0 <= i < |Flatten(tables)| ==> SingleLineRow(Flatten(tables)[i])
    ensures SplitOn(DocxTextOf(paragraphs, tables), '\n')
      == (if paragraphs == [] then [""] else paragraphs) + RowLines(Flatten(tables))
  {
    ParagraphRowLines(paragraphs, Flatten(tables));
  }

  lemma ParagraphRowLines(paragraphs: seq<string>, rows: seq<seq<string>>)
    requires forall k :: 0 <= k < |paragraphs| ==> '\n' !in paragraphs[k]
    requires forall i :: 0 <= i < |rows| ==> SingleLineRow(rows[i])
    ensures SplitOn(Join("\n", paragraphs) + RowsText(rows), '\n')
      == (if paragraphs == [] then [""] else paragraphs) + RowLines(rows)
  {
    if paragraphs == [] {
      SplitRows("", rows);
    } else {
      var n := |paragraphs|;
      var last := paragraphs[n - 1];
      calc {
        SplitOn(Join("\n", paragraphs) + RowsText(rows), '\n');
        { SplitParagraphs(paragraphs, RowsText(rows)); }
        paragraphs[..n - 1] + SplitOn(last + RowsText(rows), '\n');
        { SplitRows(last, rows); }
        paragraphs[..n - 1] + ([last] + RowLines(rows));
        { AppendAssoc(paragraphs[..n - 1], [last], RowLines(rows)); }
        (paragraphs[..n - 1] + [last]) + RowLines(rows);
        { DropLastSnoc(paragraphs); }
        paragraphs + RowLines(rows);
      }
    }
  }

  // ------------------------------------------------------------- dispatch

  /** `filename.split('.')[-1].lower()` */
  function Extension(filename: string): string {
    var parts := SplitOn(filename, '.');
    Lower(parts[|parts| - 1])
  }

  /** The extension is what follows the last period, lower-cased. */
  lemma ExtensionAfterLastDot(stem: string, ext: string)
    requires '.' !in ext
    ensures Extension(stem + "." + ext) == Lower(ext)
  {
    LastOfSplit(stem, '.', ext);
  }

  /** A name without a period is its own extension, lower-cased. */
  lemma ExtensionWithoutDot(filename: string)
    requires '.' !in filename
    ensures Extension(filename) == Lower(filename)
  {
    assert IndexOf(filename, '.') == |filename|;
  }

  /** Below this many characters of stripped digital text a PDF is taken to be scanned. */
  const ScanThreshold: nat := 100

  const ImageExtensions: seq<string> := ["png", "jpg", "jpeg", "tiff"]

  /** What the libraries produce for one attachment: the text layer of each PDF page, the
      OCR text of each page image, the paragraphs and table cells of a Word document, and
      the OCR text of an image. */
  datatype LibraryOutput = LibraryOutput(
    pdfPages: seq<Option<string>>,
    ocrPages: seq<string>,
    paragraphs: seq<string>,
    tables: seq<seq<seq<string>>>,
    imageText: string)

  /** Whether the digital text of a PDF is too short, once stripped, to be used. */
  predicate NeedsOcr(digital: string) {
    |Strip(digital)| < ScanThreshold
  }

  /** The text taken from an attachment with extension `ext`. */
  function ExtractedText(ext: string, lib: LibraryOutput): string {
    if ext == "pdf" then
      var digital := DigitalPdfText(lib.pdfPages);
      if NeedsOcr(digital) then MarkedPages(lib.ocrPages, 1) else digital
    else if ext == "docx" then DocxTextOf(lib.paragraphs, lib.tables)
    else if ext in ImageExtensions then lib.imageText
    else ""
  }

  /** The extractor chosen by the extension of `filename`, run on the library output. */
  method ExtractAttachmentText(filename: string, lib: LibraryOutput) returns (text: string)
    ensures text == ExtractedText(Extension(filename), lib)
  {
    var ext := Extension(filename);
    if ext == "pdf" {
      text := DigitalPdfText(lib.pdfPages);
      if |Strip(text)| < ScanThreshold {
        text := ScannedPdfText(lib.ocrPages);
      }
    } else if ext == "docx" {
      text := DocxText(lib.paragraphs, lib.tables);
    } else if ext in ImageExtensions {
      text := lib.imageText;
    } else {
      text := "";
    }
  }

  /** A PDF keeps its digital text only when that text has at least 100 non-blank
      characters once stripped; otherwise its pages are read by OCR, each after its marker. */
  lemma PdfFallback(lib: LibraryOutput)
    ensures var digital := DigitalPdfText(lib.pdfPages);
      var text := ExtractedText("pdf", lib);
      (|Strip(digital)| >= 100 ==> text == digital && |Strip(text)| >= 100)
      && (|Strip(digital)| < 100 ==> text == MarkedPages(lib.ocrPages, 1))
      && (|Strip(digital)| < 100 && lib.ocrPages != [] ==> StartsWith(text, "\n--- Page 1 ---\n"))
  {
    if lib.ocrPages != [] {
      assert NatToString(1) == "1";
    }
  }

  /** A PDF with no text layer at all is always read by OCR. */
  lemma NoTextLayerUsesOcr(lib: LibraryOutput)
    requires forall i :: 0 <= i < |lib.pdfPages| ==> lib.pdfPages[i] == None
    ensures ExtractedText("pdf", lib) == MarkedPages(lib.ocrPages, 1)
  {
    DigitalPdfLength(lib.pdfPages);
    NoPageTextIsEmpty(lib.pdfPages);
    assert Strip("") == "";
  }

  lemma {:induction false} NoPageTextIsEmpty(pages: seq<Option<string>>)
    requires forall i :: 0 <= i < |pages| ==> pages[i] == None
    ensures TextLength(pages) == 0
    decreases |pages|
  {
    if pages != [] {
      NoPageTextIsEmpty(pages[..|pages| - 1]);
    }
  }

  /** Any extension other than pdf, docx and the four image types yields no text, and so
      never reaches the summariser. */
  lemma UnsupportedIsEmpty(ext: string, lib: LibraryOutput)
    requires ext !in ["pdf", "docx", "png", "jpg", "jpeg", "tiff"]
    ensures ExtractedText(ext, lib) == ""
  {
  }
}
