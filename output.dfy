/**
 * What the page shows once rows are extracted: the preview grid (the header
 * row and up to five rows after it, cut to the header's width) and the name
 * offered for the downloaded workbook.
 */
module Output {
  import opened Wrappers
  import opened TextOps
  import opened Cleaning

  function Min(a: int, b: int): int {
    if a <= b then a else b
  }

  /** The cells the preview shows: the header row, then each shown row with its shown cells. */
  datatype PreviewGrid = PreviewGrid(header: Row, body: seq<Row>)

  /** How many rows follow the header in the preview. */
  const PreviewRows := 5

  /**
   * The preview of the extracted rows, or `None` when there are none (the
   * "No data found" branch). The header is `data[0]`; the body takes
   * `data[1:6]`, and of each such row only the cells whose index is below
   * both the header's length and the row's own length.
   */
  function Preview(data: seq<Row>): (p: Option<PreviewGrid>)
    ensures p.None? <==> data == []
    ensures p.Some? ==> p.value.header == data[0]
    ensures p.Some? ==> |p.value.body| == Min(PreviewRows, |data| - 1)
    ensures p.Some? ==> forall k :: 0 <= k < |p.value.body| ==>
              |p.value.body[k]| == Min(|data[k + 1]|, |data[0]|)
              && forall i :: 0 <= i < |p.value.body[k]| ==> p.value.body[k][i] == data[k + 1][i]
  {
    if data == [] then None
    else
      var shown := data[1..Min(PreviewRows + 1, |data|)];
      var width := |data[0]|;
      Some(PreviewGrid(data[0], seq(|shown|, k requires 0 <= k < |shown| => shown[k][..Min(|shown[k]|, width)])))
  }

  /** `name.replace('.pdf', '')`: removes every occurrence of ".pdf", scanning left to right. */
  function RemovePdf(name: string): (r: string)
    ensures |r| <= |name| && (|name| - |r|) % 4 == 0
    ensures !Contains(name, ".pdf") ==> r == name
  {
    if |name| >= 4 && name[..4] == ".pdf" then
      assert OccursAt(name, ".pdf", 0);
      RemovePdf(name[4..])
    else if name == [] then []
    else
      ContainsTail(name, ".pdf");
      [name[0]] + RemovePdf(name[1..])
  }

  /** The download name: the upload name with ".pdf" removed, then ".xlsx". */
  function OutputName(upload: string): (r: string)
    ensures |r| >= 5 && r[|r| - 5..] == ".xlsx"
    ensures |r| <= |upload| + 5
    ensures !Contains(upload, ".pdf") ==> r == upload + ".xlsx"
  {
    RemovePdf(upload) + ".xlsx"
  }

  /**
   * Every ".pdf" is removed, wherever it sits: cutting the name at any
   * occurrence and cleaning the two sides separately gives the same result.
   * No match can straddle the cut, since ".pdf" has no proper prefix that is
   * also a suffix. With the identity on names without ".pdf", this fixes the
   * result for every name.
   */
  lemma {:induction false} RemovePdfSplit(a: string, b: string)
    ensures RemovePdf(a + ".pdf" + b) == RemovePdf(a) + RemovePdf(b)
  {
    var s := a + ".pdf" + b;
    if a == [] {
      assert s[..4] == ".pdf" && s[4..] == b;
    } else if |a| >= 4 && a[..4] == ".pdf" {
      assert s[..4] == a[..4];
      assert s[4..] == a[4..] + ".pdf" + b;
      RemovePdfSplit(a[4..], b);
    } else {
      assert s[..4] != ".pdf" by {
        if |a| >= 4 {
          assert s[..4] == a[..4];
        } else {
          assert s[|a|] == '.';
          assert ".pdf"[|a|] != '.';
        }
      }
      assert s[1..] == a[1..] + ".pdf" + b;
      RemovePdfSplit(a[1..], b);
    }
  }

  /** A trailing ".pdf" is always removed whole, whatever precedes it. */
  lemma RemovePdfSuffix(name: string)
    ensures RemovePdf(name + ".pdf") == RemovePdf(name)
  {
    RemovePdfSplit(name, "");
    assert name + ".pdf" + "" == name + ".pdf";
  }

  /** The download name of a name with ".pdf" inside: both sides lose their ".pdf"s. */
  lemma OutputNameSplit(a: string, b: string)
    ensures OutputName(a + ".pdf" + b) == RemovePdf(a) + RemovePdf(b) + ".xlsx"
  {
    RemovePdfSplit(a, b);
  }

  /** Uploading "X.pdf" downloads the same name as uploading "X". */
  lemma OutputNameOfPdf(stem: string)
    ensures OutputName(stem + ".pdf") == OutputName(stem)
  {
    RemovePdfSuffix(stem);
  }

  /** A stem without ".pdf" in it gets its extension replaced: "X.pdf" becomes "X.xlsx". */
  lemma OutputNameReplacesExtension(stem: string)
    requires !Contains(stem, ".pdf")
    ensures OutputName(stem + ".pdf") == stem + ".xlsx"
  {
    OutputNameOfPdf(stem);
  }

  /**
   * The match is case-sensitive: a trailing ".PDF" is kept whole, and
   * nothing before it combines with it into a ".pdf".
   */
  lemma {:induction false} RemovePdfKeepsUpperCase(name: string)
    ensures RemovePdf(name + ".PDF") == RemovePdf(name) + ".PDF"
  {
    var s := name + ".PDF";
    if name == [] {
      assert s == ".PDF";
      assert s[..4] != ".pdf" by { assert s[1] != ".pdf"[1]; }
      assert RemovePdf("PDF") == "PDF" by {
        assert "PDF"[1..] == "DF" && "DF"[1..] == "F" && "F"[1..] == [];
      }
      assert s[1..] == "PDF";
    } else if |name| >= 4 && name[..4] == ".pdf" {
      assert s[..4] == name[..4];
      assert s[4..] == name[4..] + ".PDF";
      RemovePdfKeepsUpperCase(name[4..]);
    } else {
      assert s[..4] != ".pdf" by {
        if |name| >= 4 {
          assert s[..4] == name[..4];
        } else {
          assert s[|name|] == '.';
          assert ".pdf"[|name|] != '.';
        }
      }
      assert s[1..] == name[1..] + ".PDF";
      RemovePdfKeepsUpperCase(name[1..]);
    }
  }
}
