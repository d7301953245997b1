/**
 * `clean_rows`: every cell of a jagged table of optional strings becomes a
 * string with its newlines turned into spaces and its surrounding whitespace
 * stripped; a `None` or empty cell becomes "".
 */
module Cleaning {
  import opened Wrappers
  import opened TextOps

  /** A cell as the PDF library or the CSV reader hands it over: `None` or a string. */
  type Cell = Option<string>
  type RawRow = seq<Cell>
  type Row = seq<string>

  /** What every cleaned cell satisfies: no newline and no whitespace at either end. */
  predicate IsCleanCell(s: string) {
    '\n' !in s && IsTrimmed(s)
  }

  predicate IsCleanTable(t: seq<Row>) {
    forall i, j :: 0 <= i < |t| && 0 <= j < |t[i]| ==> IsCleanCell(t[i][j])
  }

  /** The per-cell expression of `clean_rows`. */
  function CleanCell(c: Cell): (r: string)
    ensures IsCleanCell(r)
    ensures !Truthy(c) ==> r == ""
  {
    if Truthy(c) then
      var t := ReplaceNewlines(c.value);
      var r := Strip(t);
      StripAddsNothing(t, '\n');
      r
    else
      ""
  }

  /** A present cell that is already clean passes through unchanged. */
  lemma CleanCellKeepsClean(c: Cell)
    requires Truthy(c) && IsCleanCell(c.value)
    ensures CleanCell(c) == c.value
  {
  }

  /**
   * A cell holding two clean lines cleans to the two lines joined by one
   * space: the newline is replaced, and nothing is stripped.
   */
  lemma CleanCellJoinsLines(a: string, b: string)
    requires a != "" && b != "" && IsCleanCell(a) && IsCleanCell(b)
    ensures CleanCell(Some(a + "\n" + b)) == a + " " + b
  {
    ReplaceNewlinesSplit(a, b);
    var t := a + " " + b;
    assert t[0] == a[0] && t[|t| - 1] == b[|b| - 1];
    StripTrimmed(t);
  }

  /** A cell cleans to "" exactly when it is `None` or holds nothing but whitespace. */
  lemma CleanCellEmpty(c: Cell)
    ensures CleanCell(c) == "" <==> (c.None? || AllSpace(c.value))
  {
  }

  /** The list comprehension of `clean_rows`, applied to one row. */
  function CleanRow(row: RawRow): (r: Row)
    ensures |r| == |row|
    ensures forall j :: 0 <= j < |row| ==> IsCleanCell(r[j]) && (!Truthy(row[j]) ==> r[j] == "")
  {
    seq(|row|, j requires 0 <= j < |row| => CleanCell(row[j]))
  }

  /** What `clean_rows` returns: one cleaned row per input row. */
  function CleanTable(rows: seq<RawRow>): (t: seq<Row>)
    ensures |t| == |rows|
    ensures forall i :: 0 <= i < |rows| ==> |t[i]| == |rows[i]|
    ensures IsCleanTable(t)
  {
    seq(|rows|, i requires 0 <= i < |rows| => CleanRow(rows[i]))
  }

  /** Every string cell as a present value, as the CSV reader's rows reach `clean_rows`. */
  function AsCells(rows: seq<Row>): (t: seq<RawRow>)
    ensures |t| == |rows|
    ensures forall i :: 0 <= i < |rows| ==> |t[i]| == |rows[i]|
    ensures forall i, j :: 0 <= i < |rows| && 0 <= j < |rows[i]| ==> t[i][j] == Some(rows[i][j])
  {
    seq(|rows|, i requires 0 <= i < |rows| => seq(|rows[i]|, j requires 0 <= j < |rows[i]| => Some(rows[i][j])))
  }

  /** `clean_rows`: builds the cleaned table by appending one row per iteration. */
  method CleanRows(rows: seq<RawRow>) returns (cleaned: seq<Row>)
    ensures cleaned == CleanTable(rows)
  {
    cleaned := [];
    for i := 0 to |rows|
      invariant cleaned == CleanTable(rows[..i])
    {
      cleaned := cleaned + [CleanRow(rows[i])];
    }
    assert rows[..|rows|] == rows;
  }

  /** Cleaning a cleaned table (read back as present strings) changes nothing. */
  lemma CleanTableIdempotent(rows: seq<RawRow>)
    ensures CleanTable(AsCells(CleanTable(rows))) == CleanTable(rows)
  {
    var t := CleanTable(rows);
    var u := CleanTable(AsCells(t));
    forall i | 0 <= i < |t| ensures u[i] == t[i] {
      forall j | 0 <= j < |t[i]| ensures u[i][j] == t[i][j] {
        assert AsCells(t)[i][j] == Some(t[i][j]);
        if t[i][j] != "" {
          CleanCellKeepsClean(Some(t[i][j]));
        }
      }
    }
  }

  lemma CleanCellExample()
    ensures CleanCell(Some("B\nC")) == "B C"
  {
  }

  /** A grid row split by an embedded newline and a missing cell. */
  lemma CleanTableExample()
    ensures CleanTable([[Some("A"), Some("B\nC")], [None, Some("D")]]) == [["A", "B C"], ["", "D"]]
  {
    var rows: seq<RawRow> := [[Some("A"), Some("B\nC")], [None, Some("D")]];
    CleanCellExample();
    assert IsCleanCell("A") && IsCleanCell("D");
    CleanCellKeepsClean(Some("A"));
    CleanCellKeepsClean(Some("D"));
    assert CleanRow(rows[0]) == ["A", "B C"];
    assert CleanRow(rows[1]) == ["", "D"];
    assert CleanTable(rows)[0] == CleanRow(rows[0]);
    assert CleanTable(rows)[1] == CleanRow(rows[1]);
  }
}
