/**
 * The two extraction paths of the converter: `parse_grid_pdf` gathers the
 * per-page tables, `parse_text_pdf` gathers the per-page texts, cuts them at
 * the start marker, lets the CSV reader tokenize the result and drops the
 * rows without fields. Both end in `clean_rows`.
 */
module Extraction {
  import opened Wrappers
  import opened TextOps
  import opened Cleaning

  /** What `page.extract_text()` gives for one page: `None` or the page's text. */
  type PageText = Option<string>
  /** What `page.extract_table()` gives for one page: `None` or the table's rows. */
  type PageTable = Option<seq<RawRow>>

  // ---------------------------------------------------------------- text pages

  /** What one page adds to `full_text`: its text and a newline, or nothing when it is falsy. */
  function PageChunk(text: PageText): string {
    if Truthy(text) then text.value + "\n" else ""
  }

  /**
   * A page adds nothing exactly when its text is falsy; otherwise what it adds
   * ends in a newline, and the text is what precedes that newline.
   */
  lemma PageChunkShape(text: PageText)
    ensures PageChunk(text) == "" <==> !Truthy(text)
    ensures Truthy(text) ==> var r := PageChunk(text); r[|r| - 1] == '\n' && r[..|r| - 1] == text.value
  {
  }

  /** The page-ordered concatenation of the chunks of all pages. */
  function JoinPages(pages: seq<PageText>): (r: string)
    ensures r == "" || r[|r| - 1] == '\n'
  {
    if pages == [] then "" else PageChunk(pages[0]) + JoinPages(pages[1..])
  }

  lemma {:induction false} JoinPagesAppend(a: seq<PageText>, b: seq<PageText>)
    ensures JoinPages(a + b) == JoinPages(a) + JoinPages(b)
  {
    if a == [] {
      assert a + b == b;
    } else {
      assert (a + b)[1..] == a[1..] + b;
      JoinPagesAppend(a[1..], b);
    }
  }

  /** One more page adds its chunk at the end of the accumulated text. */
  lemma JoinPagesStep(pages: seq<PageText>, text: PageText)
    ensures JoinPages(pages + [text]) == JoinPages(pages) + PageChunk(text)
  {
    var one := [text];
    assert one[1..] == [];
    assert JoinPages(one) == PageChunk(text) + JoinPages([]);
    assert PageChunk(text) + "" == PageChunk(text);
    JoinPagesAppend(pages, one);
  }

  /** The accumulated text is empty exactly when no page has any text. */
  lemma {:induction false} JoinPagesEmpty(pages: seq<PageText>)
    ensures JoinPages(pages) == "" <==> forall k :: 0 <= k < |pages| ==> !Truthy(pages[k])
  {
    if pages != [] {
      JoinPagesEmpty(pages[1..]);
      assert forall k :: 1 <= k < |pages| ==> pages[k] == pages[1..][k - 1];
    }
  }

  // ---------------------------------------------------------------- start marker

  /**
   * The marker block of `parse_text_pdf`: with a non-empty marker that occurs
   * in the text, the suffix starting at its first occurrence; otherwise the
   * text itself.
   */
  function StartAtMarker(text: string, marker: string): (r: string)
    ensures |r| <= |text| && r == text[|text| - |r|..]
    ensures marker == "" || !Contains(text, marker) ==> r == text
    ensures marker != "" && Contains(text, marker) ==>
              OccursAt(r, marker, 0) && forall k :: 0 <= k < |text| - |r| ==> !OccursAt(text, marker, k)
  {
    if marker == "" then text
    else
      var idx := Find(text, marker);
      if idx == -1 then text
      else
        assert text[idx..][..|marker|] == text[idx..idx + |marker|];
        text[idx..]
  }

  /** Cutting an already cut text at the same marker changes nothing. */
  lemma StartAtMarkerIdempotent(text: string, marker: string)
    ensures StartAtMarker(StartAtMarker(text, marker), marker) == StartAtMarker(text, marker)
  {
  }

  // ---------------------------------------------------------------- table pages

  /** What one page adds to `all_data`: its rows, or nothing when the page has no table. */
  function PageRows(table: PageTable): seq<RawRow> {
    if table.Some? then table.value else []
  }

  /** A page adds no rows exactly when its table is falsy (`None` or `[]`); otherwise it adds all of them. */
  lemma PageRowsShape(table: PageTable)
    ensures PageRows(table) == [] <==> table.None? || table.value == []
    ensures table.Some? ==> PageRows(table) == table.value
  {
  }

  /** The page-ordered concatenation of the tables of all pages. */
  function ConcatTables(pages: seq<PageTable>): (r: seq<RawRow>)
    ensures forall row :: row in r ==> exists k :: 0 <= k < |pages| && row in PageRows(pages[k])
  {
    if pages == [] then [] else PageRows(pages[0]) + ConcatTables(pages[1..])
  }

  lemma {:induction false} ConcatTablesAppend(a: seq<PageTable>, b: seq<PageTable>)
    ensures ConcatTables(a + b) == ConcatTables(a) + ConcatTables(b)
  {
    if a == [] {
      assert a + b == b;
    } else {
      assert (a + b)[1..] == a[1..] + b;
      ConcatTablesAppend(a[1..], b);
    }
  }

  /** The gathered rows are empty exactly when no page has a non-empty table. */
  lemma {:induction false} ConcatTablesEmpty(pages: seq<PageTable>)
    ensures ConcatTables(pages) == [] <==> forall k :: 0 <= k < |pages| ==> PageRows(pages[k]) == []
  {
    if pages != [] {
      ConcatTablesEmpty(pages[1..]);
      assert forall k :: 1 <= k < |pages| ==> pages[k] == pages[1..][k - 1];
    }
  }

  // ---------------------------------------------------------------- row filter

  /** `[row for row in reader if row]`: the rows with at least one field, in order. */
  function NonEmptyRows(rows: seq<Row>): (r: seq<Row>)
    ensures |r| <= |rows|
    ensures forall row :: row in r <==> row in rows && row != []
    ensures forall k :: 0 <= k < |r| ==> r[k] != []
  {
    if rows == [] then []
    else (if rows[0] != [] then [rows[0]] else []) + NonEmptyRows(rows[1..])
  }

  /** Adds one to every index. */
  function Shift(ix: seq<nat>): (r: seq<nat>)
    ensures |r| == |ix| && forall k :: 0 <= k < |ix| ==> r[k] == ix[k] + 1
  {
    seq(|ix|, k requires 0 <= k < |ix| => ix[k] + 1)
  }

  /** The positions of the rows with at least one field, in increasing order. */
  function KeptIndices(rows: seq<Row>): seq<nat> {
    if rows == [] then []
    else (if rows[0] != [] then [0] else []) + Shift(KeptIndices(rows[1..]))
  }

  /** Every position `KeptIndices` lists is that of a non-empty row. */
  lemma {:induction false} KeptIndicesAreNonEmpty(rows: seq<Row>)
    ensures forall k :: 0 <= k < |KeptIndices(rows)| ==>
              KeptIndices(rows)[k] < |rows| && rows[KeptIndices(rows)[k]] != []
  {
    if rows != [] {
      var tail := rows[1..];
      KeptIndicesAreNonEmpty(tail);
      var rest := KeptIndices(tail);
      var head: seq<nat> := if rows[0] != [] then [0] else [];
      var ix := KeptIndices(rows);
      assert ix == head + Shift(rest);
      forall k | 0 <= k < |ix| ensures ix[k] < |rows| && rows[ix[k]] != [] {
        if k >= |head| {
          assert ix[k] == rest[k - |head|] + 1;
          assert tail[rest[k - |head|]] == rows[ix[k]];
        }
      }
    }
  }

  /** `KeptIndices` lists its positions in strictly increasing order. */
  lemma {:induction false} KeptIndicesIncrease(rows: seq<Row>)
    ensures forall k, l :: 0 <= k < l < |KeptIndices(rows)| ==> KeptIndices(rows)[k] < KeptIndices(rows)[l]
  {
    if rows != [] {
      var tail := rows[1..];
      KeptIndicesIncrease(tail);
      var rest := KeptIndices(tail);
      var head: seq<nat> := if rows[0] != [] then [0] else [];
      assert KeptIndices(rows) == head + Shift(rest);
    }
  }

  /** `KeptIndices` lists the position of every non-empty row. */
  lemma {:induction false} KeptIndicesAreComplete(rows: seq<Row>)
    ensures forall i :: 0 <= i < |rows| && rows[i] != [] ==> i in KeptIndices(rows)
  {
    if rows != [] {
      var tail := rows[1..];
      KeptIndicesAreComplete(tail);
      var rest := KeptIndices(tail);
      var head: seq<nat> := if rows[0] != [] then [0] else [];
      var ix := KeptIndices(rows);
      assert ix == head + Shift(rest);
      forall i | 0 <= i < |rows| && rows[i] != [] ensures i in ix {
        if i == 0 {
          assert ix[0] == 0;
        } else {
          assert tail[i - 1] == rows[i];
          var j :| 0 <= j < |rest| && rest[j] == i - 1;
          assert ix[|head| + j] == i;
        }
      }
    }
  }

  /** One unfolding of `KeptIndices`: the head's position, then the tail's positions moved up by one. */
  lemma KeptIndicesStep(rows: seq<Row>, n: nat)
    requires rows != [] && n == (if rows[0] != [] then 1 else 0)
    ensures |KeptIndices(rows)| == n + |KeptIndices(rows[1..])|
    ensures n == 1 ==> KeptIndices(rows)[0] == 0
    ensures forall j :: 0 <= j < |KeptIndices(rows[1..])| ==>
              KeptIndices(rows)[n + j] == KeptIndices(rows[1..])[j] + 1
  {
    var head: seq<nat> := if rows[0] != [] then [0] else [];
    assert KeptIndices(rows) == head + Shift(KeptIndices(rows[1..]));
  }

  /** One unfolding of `NonEmptyRows`: the head if it is kept, then the tail's kept rows. */
  lemma NonEmptyRowsStep(rows: seq<Row>, n: nat)
    requires rows != [] && n == (if rows[0] != [] then 1 else 0)
    ensures |NonEmptyRows(rows)| == n + |NonEmptyRows(rows[1..])|
    ensures n == 1 ==> NonEmptyRows(rows)[0] == rows[0]
    ensures forall j :: 0 <= j < |NonEmptyRows(rows[1..])| ==>
              NonEmptyRows(rows)[n + j] == NonEmptyRows(rows[1..])[j]
  {
    var head: seq<Row> := if rows[0] != [] then [rows[0]] else [];
    assert NonEmptyRows(rows) == head + NonEmptyRows(rows[1..]);
  }

  /**
   * The inductive step of `NonEmptyRowsKeepsOrder`, on plain sequences: if
   * the tail's kept rows `kept` sit at the tail's positions `rest`, then
   * after putting the head in front of both (when it is kept) and moving the
   * positions up by one, row k of `r` sits at position `ix[k]`.
   */
  lemma PicksStep(rows: seq<Row>, n: nat, rest: seq<nat>, kept: seq<Row>, ix: seq<nat>, r: seq<Row>)
    requires rows != [] && n == (if rows[0] != [] then 1 else 0)
    requires |kept| == |rest| && forall j :: 0 <= j < |rest| ==> rest[j] < |rows[1..]| && kept[j] == rows[1..][rest[j]]
    requires |ix| == n + |rest| && (n == 1 ==> ix[0] == 0)
    requires forall j :: 0 <= j < |rest| ==> ix[n + j] == rest[j] + 1
    requires |r| == n + |kept| && (n == 1 ==> r[0] == rows[0])
    requires forall j :: 0 <= j < |kept| ==> r[n + j] == kept[j]
    ensures |r| == |ix|
    ensures forall k :: 0 <= k < |ix| ==> ix[k] < |rows| && r[k] == rows[ix[k]]
  {
    forall k | 0 <= k < |ix| ensures ix[k] < |rows| && r[k] == rows[ix[k]] {
      if k >= n {
        var j := k - n;
        assert ix[n + j] == rest[j] + 1 && r[n + j] == kept[j];
        assert rows[1..][rest[j]] == rows[rest[j] + 1];
      }
    }
  }

  /**
   * The filter keeps the non-empty rows in their order: its k-th row is the
   * row at the k-th position `KeptIndices` lists.
   */
  lemma {:induction false} NonEmptyRowsKeepsOrder(rows: seq<Row>)
    ensures |NonEmptyRows(rows)| == |KeptIndices(rows)|
    ensures forall k :: 0 <= k < |KeptIndices(rows)| ==>
              KeptIndices(rows)[k] < |rows| && NonEmptyRows(rows)[k] == rows[KeptIndices(rows)[k]]
  {
    if rows != [] {
      var tail := rows[1..];
      NonEmptyRowsKeepsOrder(tail);
      var n: nat := if rows[0] != [] then 1 else 0;
      KeptIndicesStep(rows, n);
      NonEmptyRowsStep(rows, n);
      PicksStep(rows, n, KeptIndices(tail), NonEmptyRows(tail), KeptIndices(rows), NonEmptyRows(rows));
    }
  }

  lemma {:induction false} NonEmptyRowsAppend(a: seq<Row>, b: seq<Row>)
    ensures NonEmptyRows(a + b) == NonEmptyRows(a) + NonEmptyRows(b)
  {
    if a == [] {
      assert a + b == b;
    } else {
      assert (a + b)[1..] == a[1..] + b;
      NonEmptyRowsAppend(a[1..], b);
    }
  }

  /** Rows that all have fields pass unchanged; in particular the filter is idempotent. */
  lemma {:induction false} NonEmptyRowsIdentity(rows: seq<Row>)
    requires forall k :: 0 <= k < |rows| ==> rows[k] != []
    ensures NonEmptyRows(rows) == rows
  {
    if rows != [] {
      NonEmptyRowsIdentity(rows[1..]);
    }
  }
}
