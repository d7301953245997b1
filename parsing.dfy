/**
 * The two extraction paths of the page, `parse_grid_pdf` and
 * `parse_text_pdf`: page loops that accumulate into a local variable, proved
 * to compute the specification functions of `Extraction`, followed by
 * `clean_rows`.
 */
module Parsing {
  import opened Wrappers
  import opened TextOps
  import opened Cleaning
  import opened Extraction

  /** `parse_grid_pdf`, given what `extract_table` returned for each page. */
  method ParseGridPdf(pages: seq<PageTable>) returns (data: seq<Row>)
    ensures data == CleanTable(ConcatTables(pages))
  {
    var allData: seq<RawRow> := [];
    for i := 0 to |pages|
      invariant allData == ConcatTables(pages[..i])
    {
      var tables := pages[i];
      if tables.Some? && tables.value != [] {
        allData := allData + tables.value;
      }
      ConcatTablesAppend(pages[..i], [pages[i]]);
      assert pages[..i + 1] == pages[..i] + [pages[i]];
    }
    assert allData == ConcatTables(pages) by { assert pages[..|pages|] == pages; }
    data := CleanRows(allData);
  }

  /**
   * `parse_text_pdf`, given what `extract_text` returned for each page and
   * the CSV reader (`csv.reader` with the chosen delimiter and
   * `skipinitialspace=True`) as a function from text to rows.
   */
  method ParseTextPdf(pages: seq<PageText>, delimiter: char, marker: string,
                      reader: (string, char) -> seq<Row>)
    returns (data: seq<Row>)
    ensures data == CleanTable(AsCells(NonEmptyRows(reader(StartAtMarker(JoinPages(pages), marker), delimiter))))
    ensures forall k :: 0 <= k < |data| ==> data[k] != []
  {
    var fullText := "";
    for i := 0 to |pages|
      invariant fullText == JoinPages(pages[..i])
    {
      var text := pages[i];
      JoinPagesStep(pages[..i], text);
      assert pages[..i + 1] == pages[..i] + [text];
      if Truthy(text) {
        fullText := fullText + (text.value + "\n");
      } else {
        assert fullText + PageChunk(text) == fullText;
      }
    }
    assert fullText == JoinPages(pages) by { assert pages[..|pages|] == pages; }

    fullText := StartAtMarker(fullText, marker);

    var rows := NonEmptyRows(reader(fullText, delimiter));
    data := CleanRows(AsCells(rows));
    assert forall k :: 0 <= k < |data| ==> data[k] != [] by {
      CleanedRowsNonEmpty(rows);
    }
  }

  /** Cleaning keeps each row's length, so rows that had fields still have them. */
  lemma CleanedRowsNonEmpty(rows: seq<Row>)
    requires forall k :: 0 <= k < |rows| ==> rows[k] != []
    ensures forall k :: 0 <= k < |CleanTable(AsCells(rows))| ==> CleanTable(AsCells(rows))[k] != []
  {
  }
}
