# pdf2excel: the row-shaping core of the PDF-to-spreadsheet converter

The converter is a single Streamlit page (`app.py`). A user uploads a PDF and
picks one of two extraction strategies. **Visual Tables (Grid)** asks pdfplumber
for each page's table. **Embedded Text (Raw Data)** asks pdfplumber for each
page's text, cuts the text at an optional start keyphrase, and tokenizes it as
CSV with the chosen delimiter. Either way the rows go through `clean_rows`. The
page then previews them and offers them as an `.xlsx` download.

This project models the pure data shaping between the PDF library and the
spreadsheet writer, and proves what it guarantees:

- `text_ops.dfy` (`TextOps`): the Python string built-ins the code relies on.
  These are truthiness of `None`/`str`, `str.isspace`, `str.strip()`,
  `str.replace('\n', ' ')` and `str.find`.
- `cleaning.dfy` (`Cleaning`): `clean_rows`. The per-cell expression and the
  per-row comprehension are functions. The loop that appends to `cleaned` is
  the method `CleanRows`.
- `extraction.dfy` (`Extraction`): what the two extraction paths compute, as
  functions: the page-ordered concatenations of page texts and page tables,
  the start-marker cut, and the `if row` filter applied to the CSV reader's
  rows.
- `parsing.dfy` (`Parsing`): `parse_grid_pdf` and `parse_text_pdf` as methods
  whose page loops carry invariants proving that they compute the functions of
  `Extraction`.
- `output.dfy` (`Output`): the preview selection (header plus `data[1:6]`, cut
  to the header's width) and the download name
  (`name.replace('.pdf', '') + '.xlsx'`).
- `wrappers.dfy` (`Wrappers`): `Option`, standing for Python's `None` or a value.

A cell is `Option<string>`: pdfplumber yields `str` or `None`, and `str(cell)`
is the identity on a `str`. The CSV reader's string cells reach `clean_rows` as
present values (`AsCells`). The pages' extraction results are plain inputs:
`seq<Option<string>>` for the texts and `seq<Option<seq<row>>>` for the tables.
`csv.reader(..., delimiter=d, skipinitialspace=True)` is a function-valued
parameter `reader(text, d)` of `ParseTextPdf`.

## Model

| member | source | states |
|---|---|---|
| `TextOps.Truthy` | app.py:35 | the truth test of `if cell` and `if text`: false for `None` and for "", true for any other string |
| `TextOps.IsSpace` | app.py:35 | the characters `str.strip()` removes: exactly the code points Python's `str.isspace` accepts (U+0009-U+000D, U+001C-U+0020, U+0085, U+00A0, U+1680, U+2000-U+200A, U+2028, U+2029, U+202F, U+205F, U+3000) |
| `TextOps.SkipSpaces` | app.py:35 | the scan `strip()` starts with: the first index at or after `i` that is not whitespace; everything it skips is whitespace |
| `TextOps.BackSpaces` | app.py:35 | the backward scan of `strip()`: everything it steps over is whitespace, and it stops below a non-whitespace character or at the lower bound |
| `TextOps.Strip` | app.py:35 | `strip()` never lengthens a string, and its result has no whitespace at either end |
| `TextOps.StripIsInfix` | app.py:35 | `strip()` returns an infix of its input, and everything it cut off on the two sides is whitespace |
| `TextOps.StripAddsNothing` | app.py:35 | a character absent from the input is absent from the stripped result |
| `TextOps.StripTrimmed` | app.py:35 | a string with no surrounding whitespace is returned unchanged |
| `TextOps.StripEmpty` | app.py:35 | the stripped result is empty exactly when the input is all whitespace (both directions) |
| `TextOps.ReplaceNewlines` | app.py:35 | `replace('\n', ' ')` keeps the length, leaves no newline, keeps which positions are whitespace, and is the identity on newline-free text |
| `TextOps.ReplaceNewlinesSplit` | app.py:35 | each newline becomes exactly one space and every other character stays: replacing in `a + "\n" + b` gives the replaced `a`, a space, and the replaced `b`; with the identity on newline-free text this determines the result for every text |
| `TextOps.FindFrom` | app.py:69 | the search returns -1 only when the pattern occurs nowhere at or after the start, and otherwise an occurrence with none before it |
| `TextOps.Find` | app.py:69 | `find` returns -1 exactly when the pattern does not occur, and otherwise the index of its first occurrence |
| `TextOps.ContainsTail` | app.py:114 | an occurrence in the tail of a string is an occurrence in the string (used by the left-to-right `replace`) |
| `Cleaning.CleanCell` | app.py:35 | every cleaned cell has no newline and no surrounding whitespace; a `None` or empty cell becomes "" |
| `Cleaning.CleanCellJoinsLines` | app.py:35 | a cell holding two non-empty clean lines separated by a newline cleans to the two lines joined by one space |
| `Cleaning.CleanCellKeepsClean` | app.py:35 | a non-empty cell with no newline and no surrounding whitespace comes through unchanged |
| `Cleaning.CleanCellEmpty` | app.py:35 | a cell cleans to "" exactly when it is `None` or all whitespace, newlines included (both directions) |
| `Cleaning.CleanRow` | app.py:35 | the comprehension over one row keeps its length, every cell comes out clean, and a `None` or empty cell becomes "" |
| `Cleaning.CleanTable` | app.py:30-36 | `clean_rows` keeps the row count and each row's length, and every output cell is clean |
| `Cleaning.AsCells` | app.py:76-77 | the CSV rows handed to `clean_rows` keep their shape, and each cell is the reader's string as a present value |
| `Cleaning.CleanRows` | app.py:30-36 | the appending loop produces exactly `CleanTable` of its input |
| `Cleaning.CleanTableIdempotent` | app.py:30-36 | cleaning an already cleaned table changes nothing |
| `Cleaning.CleanCellExample` | app.py:35 | the cell "B\nC" cleans to "B C" |
| `Cleaning.CleanTableExample` | app.py:30-36 | the table `[["A","B\nC"],[None,"D"]]` cleans to `[["A","B C"],["","D"]]` |
| `Extraction.PageChunk` | app.py:64-65 | what one page adds to `full_text`; its properties are stated by `PageChunkShape` |
| `Extraction.PageChunkShape` | app.py:64-65 | a page adds nothing exactly when its text is `None` or empty; otherwise it adds its text followed by one newline |
| `Extraction.JoinPages` | app.py:60-65 | the accumulated text is empty or ends in a newline |
| `Extraction.JoinPagesStep` | app.py:64-65 | one more page appends exactly its chunk to the accumulated text |
| `Extraction.JoinPagesAppend` | app.py:60-65 | accumulating the texts of two page runs is concatenating their accumulations (page order is kept) |
| `Extraction.JoinPagesEmpty` | app.py:60-65 | the accumulated text is empty exactly when no page has text (both directions) |
| `Extraction.StartAtMarker` | app.py:67-71 | with an empty or absent marker the text is unchanged; otherwise the result is the suffix that begins with the marker, and no occurrence precedes it |
| `Extraction.StartAtMarkerIdempotent` | app.py:67-71 | cutting an already cut text at the same marker changes nothing |
| `Extraction.PageRows` | app.py:54-55 | what one page adds to `all_data`; its properties are stated by `PageRowsShape` |
| `Extraction.PageRowsShape` | app.py:54-55 | a page adds no rows exactly when its table is `None` or empty; otherwise it adds its table's rows |
| `Extraction.ConcatTables` | app.py:50-55 | every gathered row is a row of some page's table |
| `Extraction.ConcatTablesAppend` | app.py:50-55 | gathering the tables of two page runs is concatenating their gatherings (page order is kept) |
| `Extraction.ConcatTablesEmpty` | app.py:50-55 | nothing is gathered exactly when no page has a non-empty table (both directions) |
| `Extraction.NonEmptyRows` | app.py:76 | the filter keeps exactly the rows with at least one field: no output row is empty, and every non-empty input row appears in the output |
| `Extraction.KeptIndicesAreNonEmpty` | app.py:76 | every position the filter keeps holds a non-empty row |
| `Extraction.KeptIndicesIncrease` | app.py:76 | the kept positions are in strictly increasing order |
| `Extraction.KeptIndicesAreComplete` | app.py:76 | the position of every non-empty row is kept |
| `Extraction.NonEmptyRowsKeepsOrder` | app.py:76 | the k-th output row is the row at the k-th kept position, so the original relative order is kept |
| `Extraction.NonEmptyRowsAppend` | app.py:76 | filtering a concatenation is concatenating the filtered parts |
| `Extraction.NonEmptyRowsIdentity` | app.py:76 | rows that all have fields pass unchanged, so filtering twice is filtering once |
| `Parsing.ParseGridPdf` | app.py:48-56 | the page loop builds the page-ordered concatenation of the non-empty tables, and the result is `clean_rows` of it |
| `Parsing.ParseTextPdf` | app.py:58-77 | the result is `clean_rows` of the non-empty CSV rows of the marker-cut, page-ordered accumulated text, and no result row is empty |
| `Parsing.CleanedRowsNonEmpty` | app.py:76-77 | cleaning keeps each row's length, so rows that passed the `if row` filter are still non-empty after `clean_rows` |
| `Output.Preview` | app.py:91-107 | no preview exactly when there are no rows; otherwise the header is the first row, at most 5 rows follow, and cell `i` of a following row is shown exactly when `i` is below both the header's and the row's length |
| `Output.RemovePdf` | app.py:114 | `replace('.pdf', '')` never lengthens the name, shortens it by a multiple of 4, and leaves a name without ".pdf" unchanged |
| `Output.OutputName` | app.py:114 | the download name always ends in ".xlsx", is at most 5 characters longer than the upload, and for an upload without ".pdf" is the upload followed by ".xlsx" |
| `Output.RemovePdfSplit` | app.py:114 | every ".pdf" is removed wherever it sits: cleaning `a + ".pdf" + b` gives the cleaned `a` followed by the cleaned `b`; with the identity on names without ".pdf" this determines the result for every name (removal is one left-to-right pass, so "..pdfpdf" becomes ".pdf") |
| `Output.RemovePdfSuffix` | app.py:114 | a trailing ".pdf" is always removed whole, whatever precedes it |
| `Output.OutputNameSplit` | app.py:114 | an upload with ".pdf" inside downloads as its two cleaned sides followed by ".xlsx" |
| `Output.OutputNameOfPdf` | app.py:114 | uploading "X.pdf" gives the same download name as uploading "X" |
| `Output.OutputNameReplacesExtension` | app.py:114 | for a stem without ".pdf", "X.pdf" downloads as "X.xlsx" |
| `Output.RemovePdfKeepsUpperCase` | app.py:114 | the match is case-sensitive: a trailing ".PDF" stays in the name |

## Left out

- The Streamlit page is not modelled: sidebar widgets, title, spinner, columns, success and error messages, and the download button (app.py:8-27, app.py:80-121). `Output.Preview` models only which cells the preview shows.
- `st.columns(len(data[0]))` with an empty header row is a Streamlit error caught by the page's `except`. That is framework behaviour and is not modelled.
- pdfplumber (`pdfplumber.open`, `page.extract_table`, `page.extract_text`) is a foreign library. Its per-page results are the inputs of `ParseGridPdf` and `ParseTextPdf`.
- The tokenizing of `csv.reader` with `skipinitialspace=True` is standard-library behaviour. It is the parameter `reader`, and only the filter and the cleaning applied after it are modelled.
- `generate_excel` (app.py:38-46) is a thin wrapper over openpyxl's binary output and is not modelled.
- The mapping from separator labels to delimiter characters (app.py:24-26) is a UI choice. The delimiter is a plain parameter.
- app.py (app.py:67-71) gives no warning when the start keyphrase is missing, and `csv.reader` is called without a quote-character setting (app.py:74-75); the model has neither.
- In app.py a `csv.Error` raised while tokenizing ends the whole extraction through the page's `except` (app.py:120-121); no line is skipped. `reader` is a total function here, so that failure path is not modelled.
- Exceptions from the PDF library and their display (app.py:120-121) are left out as UI error plumbing.
