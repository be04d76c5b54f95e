/**
  Removal of rows whose V or J gene call is missing, empty or the
  "region not covered" placeholder (software/src/main.py, filter_vdj_regions).
 */
module VdjFilter {
  import opened Rows

  const NotCovered := "region_not_covered"

  /** The gene columns checked: both chains for single-cell data, one otherwise. */
  function VdjColumns(singleCell: bool): seq<string>
  {
    if singleCell then ["VGene_A", "JGene_A", "VGene_B", "JGene_B"] else ["VGene", "JGene"]
  }

  /** A row lacking one of the table's columns reads as a missing value there. */
  function CellAt(r: Row, col: string): Cell
  {
    if col in r.cells then r.cells[col] else Null
  }

  /** notna, non-empty, and not the placeholder. */
  predicate CellValid(c: Cell)
  {
    c.Text? && c.text != "" && c.text != NotCovered
  }

  /** Every checked gene column that the table has holds a valid call. */
  predicate RowValid(columns: set<string>, singleCell: bool, r: Row)
  {
    forall col :: col in VdjColumns(singleCell) && col in columns ==> CellValid(CellAt(r, col))
  }

  function ValidMask(columns: set<string>, singleCell: bool, rows: seq<Row>): (m: seq<bool>)
    ensures |m| == |rows| && forall i :: 0 <= i < |rows| ==> m[i] == RowValid(columns, singleCell, rows[i])
  {
    seq(|rows|, i requires 0 <= i < |rows| => RowValid(columns, singleCell, rows[i]))
  }

  /** The mask after the columns `cols` have been folded in. */
  ghost predicate MaskAfter(columns: set<string>, cols: seq<string>, rows: seq<Row>, mask: seq<bool>)
  {
    |mask| == |rows| &&
    forall i :: 0 <= i < |rows| ==>
      (mask[i] <==> forall col :: col in cols && col in columns ==> CellValid(CellAt(rows[i], col)))
  }

  /** `filter_vdj_regions`: `valid_mask` starts all true and is narrowed column by column. */
  method FilterVdjRegions(columns: set<string>, rows: seq<Row>, singleCell: bool) returns (kept: seq<Row>)
    ensures kept == Masked(rows, ValidMask(columns, singleCell, rows))
  {
    var vdj := VdjColumns(singleCell);
    var mask := seq(|rows|, i => true);
    var k := 0;
    while k < |vdj|
      invariant 0 <= k <= |vdj|
      invariant MaskAfter(columns, vdj[..k], rows, mask)
    {
      var col := vdj[k];
      if col in columns {
        mask := seq(|rows|, i requires 0 <= i < |rows| => mask[i] && CellValid(CellAt(rows[i], col)));
      }
      assert vdj[..k + 1] == vdj[..k] + [col];
      k := k + 1;
    }
    assert vdj[..k] == vdj;
    assert mask == ValidMask(columns, singleCell, rows);
    kept := Masked(rows, mask);
  }

  /** The filter keeps a row exactly when it is valid. */
  lemma FilterKeepsValid(columns: set<string>, singleCell: bool, rows: seq<Row>, x: Row)
    ensures x in Masked(rows, ValidMask(columns, singleCell, rows)) <==> x in rows && RowValid(columns, singleCell, x)
  {
    MaskedMember(rows, ValidMask(columns, singleCell, rows), x);
  }

  /** The kept rows are the valid ones, unchanged and in their original order. */
  lemma FilterPreservesOrder(columns: set<string>, singleCell: bool, rows: seq<Row>)
    ensures var kept := Masked(rows, ValidMask(columns, singleCell, rows));
            var idx := TrueIndices(ValidMask(columns, singleCell, rows));
            && |kept| == |idx|
            && (forall k :: 0 <= k < |idx| ==> kept[k] == rows[idx[k]])
            && (forall a, b :: 0 <= a < b < |idx| ==> idx[a] < idx[b])
            && (forall i :: 0 <= i < |rows| ==> (i in idx <==> RowValid(columns, singleCell, rows[i])))
  {
    var m := ValidMask(columns, singleCell, rows);
    MaskedAtTrueIndices(rows, m);
    TrueIndicesIncreasing(m);
    forall i | 0 <= i < |rows| ensures i in TrueIndices(m) <==> RowValid(columns, singleCell, rows[i]) {
      TrueIndicesExact(m, i);
    }
  }

  /** A table without gene columns loses nothing. */
  lemma FilterWithoutGeneColumns(columns: set<string>, singleCell: bool, rows: seq<Row>)
    requires forall col :: col in VdjColumns(singleCell) ==> col !in columns
    ensures Masked(rows, ValidMask(columns, singleCell, rows)) == rows
  {
    MaskAllTrue(rows, ValidMask(columns, singleCell, rows));
  }

  lemma {:induction false} MaskAllTrue<T>(s: seq<T>, m: seq<bool>)
    requires |m| == |s| && forall i :: 0 <= i < |m| ==> m[i]
    ensures Masked(s, m) == s
  {
    if |s| > 0 {
      MaskAllTrue(s[..|s| - 1], m[..|s| - 1]);
    }
  }
}
