/**
 * The spreadsheet, seen only through the rows it holds. Row numbers are
 * 1-based as in the spreadsheet API; every row past the last stored one is
 * blank, so inserting below the end fills the gap with blank rows and
 * deleting a row past the end changes nothing.
 */
module Sheets {

  /** A cell value: text, or a number taken from the JSON document. */
  datatype Cell = Str(text: string) | Num(value: real)

  type Row = seq<Cell>

  function Max(a: int, b: int): int { if a < b then b else a }

  /** `n` blank rows. */
  function BlankRows(n: nat): (r: seq<Row>)
    ensures |r| == n && forall i :: 0 <= i < n ==> r[i] == []
  {
    seq(n, _ => [])
  }

  /** Row `index` (1-based) of `rows`, or the empty row past the end. */
  function RowAt(rows: seq<Row>, index: nat): Row
    requires index >= 1
  {
    if index <= |rows| then rows[index - 1] else []
  }

  /** `rows` after `row` is inserted so that it becomes row `index`. */
  function Inserted(rows: seq<Row>, row: Row, index: nat): (r: seq<Row>)
    requires index >= 1
    ensures |r| == Max(|rows|, index - 1) + 1
    ensures r[index - 1] == row
    ensures forall i :: 0 <= i < index - 1 ==> r[i] == RowAt(rows, i + 1)
    ensures forall i :: index - 1 <= i < |rows| ==> r[i + 1] == rows[i]
  {
    if index - 1 <= |rows| then rows[..index - 1] + [row] + rows[index - 1..]
    else rows + BlankRows(index - 1 - |rows|) + [row]
  }

  /** `rows` after row `index` is deleted; rows below move up by one. */
  function Deleted(rows: seq<Row>, index: nat): (r: seq<Row>)
    requires index >= 1
    ensures index <= |rows| ==> |r| == |rows| - 1
    ensures index > |rows| ==> r == rows
    ensures forall i :: 0 <= i < index - 1 && i < |r| ==> r[i] == rows[i]
    ensures forall i :: index - 1 <= i < |r| ==> r[i] == rows[i + 1]
  {
    if index <= |rows| then rows[..index - 1] + rows[index..] else rows
  }

  /**
   * A row after the cells of its first |values| columns are written with
   * `values`; the cells to the right of that range keep their contents.
   */
  function Overwritten(old_row: Row, values: Row): (r: Row)
    ensures |r| == Max(|old_row|, |values|)
    ensures r[..|values|] == values
    ensures forall i :: |values| <= i < |old_row| ==> r[i] == old_row[i]
  {
    if |old_row| <= |values| then values else values + old_row[|values|..]
  }

  /** `rows` after the range that spans the leading cells of row 1 is written with `values`. */
  function FirstRowWritten(rows: seq<Row>, values: Row): (r: seq<Row>)
    ensures |r| == Max(|rows|, 1)
    ensures r[0] == Overwritten(RowAt(rows, 1), values)
    ensures forall i :: 1 <= i < |rows| ==> r[i] == rows[i]
  {
    if |rows| == 0 then [values] else [Overwritten(rows[0], values)] + rows[1..]
  }

  /**
   * Inserting at row 2 keeps row 1, puts the new row second and moves
   * every earlier row from row 2 onward down by one.
   */
  lemma InsertUnderHeader(rows: seq<Row>, row: Row)
    requires |rows| >= 1
    ensures Inserted(rows, row, 2) == [rows[0], row] + rows[1..]
  {
    var r := Inserted(rows, row, 2);
    var e := [rows[0], row] + rows[1..];
    assert |r| == |e|;
    forall i | 0 <= i < |r| ensures r[i] == e[i] {
      if i >= 2 { assert r[(i - 1) + 1] == rows[i - 1]; }
    }
  }

  /** Deleting row 1 and then inserting a row at 1 replaces row 1 and keeps the rest. */
  lemma ReplaceFirstRow(rows: seq<Row>, row: Row)
    ensures Inserted(Deleted(rows, 1), row, 1) == [row] + (if |rows| == 0 then [] else rows[1..])
  {
    var d := if |rows| == 0 then [] else rows[1..];
    assert |rows| > 0 ==> rows[..0] + rows[1..] == d;
    assert Deleted(rows, 1) == d;
    assert d[..0] == [] && d[0..] == d;
    assert Inserted(d, row, 1) == d[..0] + [row] + d[0..];
  }

  /**
   * The spreadsheet tab. Its one field is the sequence of rows the
   * methods reassign, as the spreadsheet API calls change the tab.
   */
  class Sheet {
    var rows: seq<Row>

    constructor (initial: seq<Row>)
      ensures rows == initial
    {
      rows := initial;
    }

    /** The values of row `index` (1-based); a row past the end is empty. */
    function RowValues(index: nat): (r: Row)
      requires index >= 1
      reads this
      ensures index <= |rows| ==> r == rows[index - 1]
      ensures index > |rows| ==> r == []
    {
      RowAt(rows, index)
    }

    /** Appends `row` after the last row. */
    method AppendRow(row: Row)
      modifies this
      ensures rows == old(rows) + [row]
    {
      rows := rows + [row];
    }

    /** Inserts `row` so that it becomes row `index`, pushing later rows down. */
    method InsertRow(row: Row, index: nat)
      requires index >= 1
      modifies this
      ensures rows == Inserted(old(rows), row, index)
    {
      rows := Inserted(rows, row, index);
    }

    /** Deletes row `index`, pulling later rows up. */
    method DeleteRow(index: nat)
      requires index >= 1
      modifies this
      ensures rows == Deleted(old(rows), index)
    {
      rows := Deleted(rows, index);
    }

    /** Writes `values` into the leading cells of row 1 (a range update such as `A1:M1`). */
    method UpdateFirstRow(values: Row)
      modifies this
      ensures rows == FirstRowWritten(old(rows), values)
    {
      rows := FirstRowWritten(rows, values);
    }
  }
}
