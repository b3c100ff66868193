/**
 * The part of a Google Apps Script sheet the spreadsheet scripts use: the
 * rows of its data range, each with its cells and its background colour,
 * `deleteRow` and a row's `setBackground`.
 */
module Sheets {
  import opened Wrappers
  import opened Text

  /** A row of the data range: its cell values and its background colour. */
  datatype SheetRow = SheetRow(cells: seq<string>, background: string)

  /**
   * `deleteRow(n)`, 1-based, on a row sequence: row `n` goes and the rows
   * below it move up. A position past the data range leaves the data as it is.
   */
  function DeleteRowAt<T>(rows: seq<T>, n: int): (r: seq<T>)
    ensures 1 <= n <= |rows| ==> |r| == |rows| - 1 && r[..n - 1] == rows[..n - 1] && r[n - 1..] == rows[n..]
    ensures !(1 <= n <= |rows|) ==> r == rows
  {
    if 1 <= n <= |rows| then rows[..n - 1] + rows[n..] else rows
  }

  /** The effect of `deleteRow(t)` for each `t` of `targets`, in order. */
  function DeleteAll<T>(rows: seq<T>, targets: seq<int>): seq<T> {
    if targets == [] then rows
    else DeleteRowAt(DeleteAll(rows, targets[..|targets| - 1]), targets[|targets| - 1])
  }

  lemma DeleteAllSnoc<T>(rows: seq<T>, targets: seq<int>, t: int)
    ensures DeleteAll(rows, targets + [t]) == DeleteRowAt(DeleteAll(rows, targets), t)
  {
    assert (targets + [t])[..|targets|] == targets;
  }

  /** Deleting 1-based row `|before| + 1` removes the row between `before` and `after`. */
  lemma DeleteBetween<T>(before: seq<T>, row: T, after: seq<T>)
    ensures DeleteRowAt(before + [row] + after, |before| + 1) == before + after
  {
    assert (before + [row] + after)[..|before|] == before;
    assert (before + [row] + after)[|before| + 1..] == after;
  }

  /** The active sheet. */
  class Sheet {
    var rows: seq<SheetRow>

    constructor (initial: seq<SheetRow>)
      ensures rows == initial
    {
      rows := initial;
    }

    /** `getDataRange().getValues()` */
    function Values(): (values: seq<seq<string>>)
      reads this
      ensures |values| == |rows|
      ensures forall i :: 0 <= i < |rows| ==> values[i] == rows[i].cells
    {
      seq(|rows|, i requires 0 <= i < |rows| reads this => rows[i].cells)
    }

    /** `deleteRow(n)` */
    method DeleteRow(n: int)
      modifies this
      ensures rows == DeleteRowAt(old(rows), n)
    {
      rows := DeleteRowAt(rows, n);
    }

    /** `getRange(n, 1, 1, getLastColumn()).setBackground(colour)`: the whole of row `n`, 1-based. */
    method SetRowBackground(n: int, colour: string)
      modifies this
      ensures |rows| == |old(rows)|
      ensures forall i :: 0 <= i < |rows| ==>
        rows[i] == (if i == n - 1 then old(rows)[i].(background := colour) else old(rows)[i])
    {
      if 1 <= n <= |rows| {
        rows := rows[n - 1 := rows[n - 1].(background := colour)];
      }
    }
  }

  /**
   * Column C of a row, lower-cased and then trimmed, as
   * `row[2].toLowerCase().trim()` computes it; None when the row has no
   * column C, where that expression throws.
   */
  function ColumnC(row: seq<string>): (key: Option<string>)
    ensures key.None? <==> |row| < 3
  {
    if |row| < 3 then None else Some(Strip(JavaScript, Lower(row[2])))
  }

  /** The index of the first row without a column C, or the number of rows when every row has one. */
  function FirstShort(values: seq<seq<string>>): (n: nat)
    ensures n <= |values|
    ensures forall i :: 0 <= i < n ==> |values[i]| >= 3
    ensures n < |values| ==> |values[n]| < 3
  {
    FirstShortFrom(values, 0)
  }

  function FirstShortFrom(values: seq<seq<string>>, start: nat): (n: nat)
    requires start <= |values|
    ensures start <= n <= |values|
    ensures forall i :: start <= i < n ==> |values[i]| >= 3
    ensures n < |values| ==> |values[n]| < 3
    decreases |values| - start
  {
    if start == |values| || |values[start]| < 3 then start
    else FirstShortFrom(values, start + 1)
  }

  /** A row with a column C at or before the first short row lies before it. */
  lemma BeforeFirstShort(values: seq<seq<string>>, i: nat)
    requires i <= FirstShort(values) && i < |values| && |values[i]| >= 3
    ensures i < FirstShort(values)
  {
  }

  /** The normalised column C of rows `0 .. n - 1`, which all have one. */
  function ColumnKeys(values: seq<seq<string>>, n: nat): (keys: seq<string>)
    requires n <= FirstShort(values)
    ensures |keys| == n
  {
    if n == 0 then [] else ColumnKeys(values, n - 1) + [ColumnC(values[n - 1]).value]
  }

  /** Key `i` is row `i`'s normalised column C. */
  lemma {:induction false} ColumnKeyAt(values: seq<seq<string>>, n: nat, i: nat)
    requires n <= FirstShort(values) && i < n
    ensures ColumnC(values[i]) == Some(ColumnKeys(values, n)[i])
  {
    if i < n - 1 {
      ColumnKeyAt(values, n - 1, i);
    }
  }
}
