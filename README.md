# Tender summariser: a Dafny model

The system is a small web app. It lists the recent messages of a Gmail inbox. For a chosen
message it does the following:

- It summarises the message from its snippet.
- It fetches the message's first downloadable attachment.
- It extracts the attachment's text according to the file type:
  - digital PDF text, with an OCR fallback for scanned PDFs;
  - DOCX paragraphs and table rows;
  - OCR for images.
- It has the text summarised.
- It turns the combined summary into a two-column "Parameter / Description" Word table. Each
  section is a bold heading of the summary together with the distinct list items under it.

This project models the logic behind those steps in Dafny and proves what it computes:

- `wrappers.dfy` holds `Option`.
- `text.dfy` models the Python string operations the code relies on:
  - `strip`/`lstrip` over the exact `str.isspace` character set;
  - `"\n".join`, `split('.')`, `splitlines` over its exact set of line boundaries, with `"\r\n"`
    counted as one boundary;
  - ASCII `lower`;
  - decimal numerals.
- `summary_table.dfy` is `generate_table_word`. The parse loop is a method proved against a
  block-by-block reference definition of the sections. The title, the line patterns and the
  rendered cells are defined beside it.
- `extraction.dfy` holds the extractors and the dispatch on the file extension. The text and
  page images the PDF, OCR and DOCX libraries produce are inputs.
- `gmail.dfy` holds `get_recent_emails` and `get_attachment`. What the Gmail service returns is
  an input.
- `pipeline.dfy` is what the Generate button does for one message. The summariser's streamed
  replies are inputs.

## Model

| member | source | states |
|---|---|---|
| Text.TrimLeftSpec | Salesapp2.py:252 | `lstrip(chars)` removes exactly the longest prefix made of the given characters: the result is a suffix, every removed character is in the set, and the result does not start with one |
| Text.TrimRightSpec | Salesapp2.py:256 | `rstrip`/the right half of `strip(chars)` removes exactly the longest suffix made of the given characters |
| Text.StripIsCore | Salesapp2.py:488 | `strip()` returns a contiguous slice of the text; only whitespace is cut from either end, and the result neither starts nor ends with whitespace |
| Text.SplitLinesNoBreak | Salesapp2.py:245 | no line produced by `splitlines` contains a line-boundary character |
| Text.SplitLinesTerminated | Salesapp2.py:245 | `splitlines` inverts writing each line followed by a newline, for lines without boundary characters |
| Text.SplitJoin | Salesapp2.py:238 | splitting on a separator inverts joining with it, when no part contains the separator |
| Text.LastOfSplit | Salesapp2.py:482 | the last piece of `split(c)` is the text after the last `c` |
| Text.ParseNatToString | Salesapp2.py:225 | the decimal numeral written for a page number reads back as that number |
| Text.Lower | Salesapp2.py:482 | `lower()` keeps the length and maps each character on its own, changing ASCII capitals only |
| SummaryTable.Title | Salesapp2.py:246 | the heading is the text of the first line whose stripped form starts with `#`, with `#` and surrounding whitespace removed; it is "Table" when there is no such line |
| SummaryTable.CleanItemIsSuffix | Salesapp2.py:259 | the `re.sub` that cleans an item removes exactly a prefix: the longest run of `-`, digits and `.` (at least one character), then the longest run of whitespace after it; a line not starting with such a character is kept whole |
| SummaryTable.ListItemLosesMarker | Salesapp2.py:258-259 | every line the loop takes as a list item starts with a marker character, so its stored text is shorter than the line |
| SummaryTable.ParseSections | Salesapp2.py:247-264 | the `while` loop with its final flush yields exactly the block-by-block sections of the summary |
| SummaryTable.RunShape | Salesapp2.py:251-262 | after any prefix of the lines, the loop state holds the sections of the blocks already closed, the key of the last heading seen and the distinct items of its open block |
| SummaryTable.FlushIsSections | Salesapp2.py:263-264 | flushing the pending key after the loop completes the sections: nothing is lost and nothing is added |
| SummaryTable.SectionsAppend | Salesapp2.py:251-262 | the sections of a text cut just before a heading are the sections of the two parts, concatenated |
| SummaryTable.SectionKeys | Salesapp2.py:253-257 | the table keys are the non-empty bold-heading keys, in the order of their lines, repeats included |
| SummaryTable.EmptyHeadingDropsItems | Salesapp2.py:254-258 | a bold heading whose key is empty contributes no row, and the items under it are dropped |
| SummaryTable.DedupSpec | Salesapp2.py:260-261 | the `not in values` guard keeps each item text once, keeps every text, and orders them by first occurrence |
| SummaryTable.SectionValuesDistinct | Salesapp2.py:260-261 | every section's values are pairwise distinct |
| SummaryTable.ValuesComeFromItemLines | Salesapp2.py:258-261 | every stored value is the cleaned text of some list-item line of the summary |
| SummaryTable.GenerateTable | Salesapp2.py:244-278 | the document holds the title and the cells rendered from the parsed sections of the summary's lines |
| SummaryTable.RenderCells | Salesapp2.py:270-278 | the cells are the `Parameter`/`Description` header, then one row per section in order: the key, and the values joined by newlines |
| SummaryTable.TableIsDetermined | Salesapp2.py:244-278 | a summary determines its table: two documents that both fit it are equal |
| Extraction.DigitalPdfAppend | Salesapp2.py:234 | the text of a PDF is the text of its first pages followed by the text of the rest |
| Extraction.MissingPageAddsNothing | Salesapp2.py:234 | a page without extractable text (`or ""`) contributes nothing |
| Extraction.DigitalPdfLength | Salesapp2.py:234 | the text's length is the sum of the page texts' lengths |
| Extraction.ScannedPdfText | Salesapp2.py:220-226 | the accumulating loop yields every OCR page after its marker, in page order, numbered from 1 |
| Extraction.MarkedPagesSnoc | Salesapp2.py:223-225 | one more page appends its marker (with the next number) and its text to what came before |
| Extraction.PageInPlace | Salesapp2.py:223-225 | page `i` appears as the marker numbered `i + 1` followed by its text, after all earlier pages and before all later ones |
| Extraction.MarkerNumber | Salesapp2.py:225 | the page number can be read back from its marker `\n--- Page n ---\n` |
| Extraction.DocxText | Salesapp2.py:236-242 | the result is the paragraphs joined by newlines, then, for every row of every table in order, a newline and the row's cell texts joined by spaces |
| Extraction.DocxLines | Salesapp2.py:238-241 | when paragraphs and cells contain no newline, splitting the DOCX text on newlines gives back the paragraphs followed by one line per table row |
| Extraction.ExtensionAfterLastDot | Salesapp2.py:482 | the extension is the lower-cased text after the last `.` of the file name |
| Extraction.ExtensionWithoutDot | Salesapp2.py:482 | a name without a `.` is its own (lower-cased) extension |
| Extraction.ExtractAttachmentText | Salesapp2.py:486-497 | the extracted text is the text of the reference dispatch: PDF with its fallback, DOCX, the image types, or "" for anything else |
| Extraction.PdfFallback | Salesapp2.py:486-490 | a PDF keeps its digital text exactly when that text has at least 100 characters once stripped; otherwise the OCR pages are used, starting with the page-1 marker |
| Extraction.NoTextLayerUsesOcr | Salesapp2.py:487-490 | a PDF with no extractable page text is always read by OCR |
| Extraction.NoPageTextIsEmpty | Salesapp2.py:234 | pages without text give an empty digital text |
| Gmail.HeaderMapLastWins | gmail_utils.py:35 | a header name is in the dict exactly when some header has it, and it maps to the value of the last such header |
| Gmail.LookupIsLastOrDefault | gmail_utils.py:38-39 | `headers.get(name, default)` is the last header's value, or the default when no header has the name |
| Gmail.RecordFields | gmail_utils.py:36-42 | a record keeps the message id; subject and sender come from the headers or fall back to "No Subject" and "Unknown Sender"; the snippet is kept when present and is "" when missing; the flag holds exactly when some part has a non-empty file name |
| Gmail.RecentEmails | gmail_utils.py:28-43 | one record per listed message, in listing order, each carrying that message's id; a listing without messages gives none |
| Gmail.FirstDownloadable | gmail_utils.py:50-51 | the index found is that of a part with a file name and an attachment id, and no earlier part has both |
| Gmail.FirstAttachment | gmail_utils.py:47-59 | nothing is returned exactly when no part is downloadable; otherwise the file name and attachment id of the first downloadable part are returned |
| Gmail.FirstIsUnique | gmail_utils.py:50-51 | a downloadable part with only non-downloadable parts before it is the first downloadable part |
| Gmail.FlaggedWithoutDownload | gmail_utils.py:41 | the listing's attachment flag does not ask for an attachment id, so a message can be flagged while `get_attachment` finds nothing |
| Pipeline.EmailText | Salesapp2.py:472 | the text sent for the email summary is the snippet when that is non-empty and "No snippet available." otherwise, so it is never empty |
| Pipeline.DeliveredIsNonEmptyTexts | Salesapp2.py:361-363 | a reply stream yields exactly the non-empty chunk texts, in chunk order (checked against a separate front-to-back filter) |
| Pipeline.SkippingChangesNothing | Salesapp2.py:452-454 | dropping chunks without text does not change the accumulated reply: it is the concatenation of every chunk's text |
| Pipeline.CollectReply | Salesapp2.py:475-477 | the `+=` loop over a stream yields the concatenation of the delivered texts, in order |
| Pipeline.ProcessAttachment | Salesapp2.py:481-519 | no attachment exactly when the file name or the data is empty; no usable text exactly when the extracted text is blank; otherwise the summary is the email summary followed by the attachment summary, the table is the one generated from it, and the download name is the file name plus `_summary.docx` |
| Pipeline.Generate | Salesapp2.py:470-519 | the email summary is the collected email reply; the attachment used is the first downloadable part; there is no attachment exactly when no part is downloadable or its download is empty; there is no usable text exactly when the attachment is there and its extracted text is blank; a summarised outcome carries the combined summary, its table and the download name |

## Left out

- The Streamlit page is not modelled: layout, CSS, columns, buttons, spinners, placeholders and
  the warning, info and error messages. `st.session_state["summary"]` (Salesapp2.py:505) holds
  the same text as the outcome's summary.
- Gmail authentication (`gmail_authenticate`) and the token file are not modelled. The
  service calls are replaced by inputs: the listed ids, a function from id to message details,
  and a function from attachment id to decoded bytes.
- The `q` filter and the `maxResults` bound of the listing are applied by the server. The
  listing is taken as given.
- `urlsafe_b64decode` (gmail_utils.py:57) is part of the download input.
- `get_attachment` fetches the message again by id. The model takes the payload parts directly.
- The Cohere calls and the prompt texts (Salesapp2.py:284-454) are not modelled. Each reply is
  the sequence of chunks it streams; a chunk without a `text` attribute is `None`.
- `stream_email_summary_from_cohere` picks its prompt from the attachment flag
  (Salesapp2.py:366). Since the prompts are out of scope, so is this choice.
- PyPDF2, pdf2image, pytesseract, PIL and python-docx are not modelled. Their results are
  inputs: the optional text of each PDF page, the OCR text of each page image and of an image
  file, and the paragraph and cell texts of a DOCX document.
- The `try`/`except` around extraction (Salesapp2.py:485, 516-517) is not modelled, because the
  library failures it catches are not part of the model.
- The `.docx` serialisation of the table is not modelled: the heading style, bold run, font
  size, table style and the `BytesIO` buffer. `TableDoc` holds the heading text and the cell
  texts.
- The `__main__` block of gmail_utils.py, which prints the listing, is not modelled.
- SummaryTable.IsNumbered, SummaryTable.Markers, SummaryTable.CleanItem: `\d` (in `^\d+\.` and in
  the class `[-\d.]`) is taken as the ASCII digits; Python's `re` also matches other Unicode
  decimal digits.
- Text.Lower: only ASCII capitals are lowered; Python's `lower()` also maps non-ASCII letters.
- Gmail.RecordFields: a `snippet` present with a null value is treated like a missing one.
