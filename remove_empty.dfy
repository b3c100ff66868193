/**
 * spreadscheets/remove-empty.js: meant to delete every row of the active
 * sheet whose column C, lower-cased and trimmed, is empty. The script scans
 * a snapshot of the values taken before any deletion and calls
 * `deleteRow(index + 1)` on the live sheet for each empty snapshot row; the
 * `index--` after the call changes only the callback's own parameter, so
 * every deletion after the first is aimed one row further down than the
 * row it tested, per earlier deletion.
 */
module RemoveEmpty {
  import opened Wrappers
  import opened Text
  import opened Sheets
  import opened Seqs

  /** The test of the callback: column C, lower-cased and trimmed, equals "". */
  predicate IsEmptyRow(cells: seq<string>) {
    ColumnC(cells) == Some("")
  }

  /** The test holds exactly when column C is all whitespace. */
  lemma EmptyIffBlank(cells: seq<string>)
    requires |cells| >= 3
    ensures IsEmptyRow(cells) <==> AllSpace(JavaScript, cells[2])
  {
    StripEmpty(JavaScript, Lower(cells[2]));
    assert forall i :: 0 <= i < |cells[2]| ==> (IsSpace(JavaScript, Lower(cells[2])[i]) <==> IsSpace(JavaScript, cells[2][i]));
  }

  /**
   * The arguments of the `deleteRow` calls made for the snapshot rows whose
   * normalised column C values are `keys`: `index + 1` for each empty one,
   * in ascending order.
   */
  function DeleteTargets(keys: seq<string>): (targets: seq<int>)
    ensures |targets| <= |keys|
  {
    if keys == [] then []
    else DeleteTargets(keys[..|keys| - 1]) + (if keys[|keys| - 1] == "" then [|keys|] else [])
  }

  lemma DeleteTargetsSnoc(keys: seq<string>, key: string)
    ensures DeleteTargets(keys + [key]) == DeleteTargets(keys) + (if key == "" then [|keys| + 1] else [])
  {
    assert (keys + [key])[..|keys|] == keys;
  }

  /** One step of the scan as written, at snapshot row `index`. */
  lemma DeleteStep<T>(original: seq<T>, keys: seq<string>, index: nat)
    requires index < |keys|
    ensures keys[index] == "" ==>
      DeleteAll(original, DeleteTargets(keys[..index + 1])) ==
        DeleteRowAt(DeleteAll(original, DeleteTargets(keys[..index])), index + 1)
    ensures keys[index] != "" ==> DeleteTargets(keys[..index + 1]) == DeleteTargets(keys[..index])
  {
    assert keys[..index + 1] == keys[..index] + [keys[index]];
    DeleteTargetsSnoc(keys[..index], keys[index]);
    if keys[index] == "" {
      DeleteAllSnoc(original, DeleteTargets(keys[..index]), index + 1);
    }
  }

  /**
   * The forEach callback as written, for snapshot row `row` at `index`: it
   * throws (`raised`) when the row has no column C, and otherwise deletes
   * live row `index + 1` when the normalised column C is empty.
   */
  method VisitRow(sheet: Sheet, row: seq<string>, index: nat) returns (raised: bool)
    modifies sheet
    ensures raised <==> |row| < 3
    ensures sheet.rows ==
      if !raised && ColumnC(row).value == "" then DeleteRowAt(old(sheet.rows), index + 1) else old(sheet.rows)
  {
    var cellValue := ColumnC(row);
    if cellValue.None? {
      return true;
    }
    if cellValue.value == "" {
      sheet.DeleteRow(index + 1);
      // the script's `index--` here assigns the callback's parameter only
    }
    return false;
  }

  /**
   * `deleteEmpty` as written. The forEach over the snapshot stops with an
   * exception at the first row without a column C (`raised`); up to there,
   * each empty snapshot row `index` triggers `deleteRow(index + 1)` on the
   * live sheet.
   */
  method DeleteEmpty(sheet: Sheet) returns (raised: bool)
    modifies sheet
    ensures raised <==> FirstShort(old(sheet.Values())) < |old(sheet.rows)|
    ensures sheet.rows == DeleteAll(old(sheet.rows),
      DeleteTargets(ColumnKeys(old(sheet.Values()), FirstShort(old(sheet.Values())))))
  {
    var values := sheet.Values();
    ghost var original := sheet.rows;
    ghost var keys := ColumnKeys(values, FirstShort(values));
    for index := 0 to |values|
      invariant index <= FirstShort(values)
      invariant sheet.rows == DeleteAll(original, DeleteTargets(keys[..index]))
    {
      raised := VisitRow(sheet, values[index], index);
      if raised {
        assert keys[..index] == keys;
        return;
      }
      BeforeFirstShort(values, index);
      ColumnKeyAt(values, FirstShort(values), index);
      DeleteStep(original, keys, index);
    }
    assert keys[..|values|] == keys;
    return false;
  }

  /** Without an empty key no `deleteRow` call is made. */
  lemma {:induction false} NoTargets(keys: seq<string>)
    requires forall i :: 0 <= i < |keys| ==> keys[i] != ""
    ensures DeleteTargets(keys) == []
  {
    if keys != [] {
      NoTargets(keys[..|keys| - 1]);
    }
  }

  /** The first `deleteRow` call is for the first empty snapshot row `j`, with argument `j + 1`. */
  lemma {:induction false} FirstTarget(keys: seq<string>, j: nat)
    requires j < |keys| && keys[j] == "" && forall i :: 0 <= i < j ==> keys[i] != ""
    ensures DeleteTargets(keys) != [] && DeleteTargets(keys)[0] == j + 1
  {
    var init := keys[..|keys| - 1];
    if j == |keys| - 1 {
      NoTargets(init);
    } else {
      FirstTarget(init, j);
    }
  }

  /** The first deletion of the script as written removes exactly the first empty snapshot row. */
  lemma FirstDeletionRemovesFirstEmpty<T>(rows: seq<T>, keys: seq<string>, j: nat)
    requires |keys| <= |rows|
    requires j < |keys| && keys[j] == "" && forall i :: 0 <= i < j ==> keys[i] != ""
    ensures DeleteTargets(keys) != [] && DeleteRowAt(rows, DeleteTargets(keys)[0]) == rows[..j] + rows[j + 1..]
  {
    FirstTarget(keys, j);
    SplitAt(rows, j);
    DeleteBetween(rows[..j], rows[j], rows[j + 1..]);
  }

  /** The rows whose normalised column C is not empty, in their original order. */
  function KeepNonEmpty<T>(rows: seq<T>, keys: seq<string>): (kept: seq<T>)
    requires |keys| == |rows|
    ensures |kept| <= |rows|
  {
    if rows == [] then []
    else KeepNonEmpty(rows[..|rows| - 1], keys[..|keys| - 1]) + (if keys[|keys| - 1] == "" then [] else [rows[|rows| - 1]])
  }

  lemma KeepNonEmptySnoc<T>(rows: seq<T>, keys: seq<string>, row: T, key: string)
    requires |keys| == |rows|
    ensures KeepNonEmpty(rows + [row], keys + [key]) == KeepNonEmpty(rows, keys) + (if key == "" then [] else [row])
  {
    assert (rows + [row])[..|rows|] == rows;
    assert (keys + [key])[..|keys|] == keys;
  }

  /** Every non-empty row survives, and every survivor is a non-empty row. */
  lemma {:induction false} KeepNonEmptyMembers<T>(rows: seq<T>, keys: seq<string>)
    requires |keys| == |rows|
    ensures forall i :: 0 <= i < |rows| && keys[i] != "" ==> rows[i] in KeepNonEmpty(rows, keys)
    ensures forall r <- KeepNonEmpty(rows, keys) :: exists i :: 0 <= i < |rows| && rows[i] == r && keys[i] != ""
  {
    if rows != [] {
      var n := |rows|;
      KeepNonEmptyMembers(rows[..n - 1], keys[..n - 1]);
      forall r <- KeepNonEmpty(rows, keys) ensures exists i :: 0 <= i < n && rows[i] == r && keys[i] != "" {
        if r in KeepNonEmpty(rows[..n - 1], keys[..n - 1]) {
          var i :| 0 <= i < n - 1 && rows[..n - 1][i] == r && keys[..n - 1][i] != "";
          assert rows[i] == r && keys[i] != "";
        } else {
          assert rows[n - 1] == r && keys[n - 1] != "";
        }
      }
      forall i | 0 <= i < n && keys[i] != "" ensures rows[i] in KeepNonEmpty(rows, keys) {
        if i < n - 1 {
          assert rows[..n - 1][i] == rows[i] && keys[..n - 1][i] == keys[i];
        }
      }
    }
  }

  /**
   * The `deleteRow` arguments of the evident intent: the `j`-th deletion
   * comes after `j` earlier ones, all above it, so it is aimed `j` rows
   * higher than the snapshot position.
   */
  function Shifted(targets: seq<int>): (shifted: seq<int>)
    ensures |shifted| == |targets|
    ensures forall j :: 0 <= j < |targets| ==> shifted[j] == targets[j] - j
  {
    seq(|targets|, j requires 0 <= j < |targets| => targets[j] - j)
  }

  lemma ShiftedSnoc(targets: seq<int>, t: int)
    ensures Shifted(targets + [t]) == Shifted(targets) + [t - |targets|]
  {
  }

  /** Each row is either kept or the target of a deletion. */
  lemma {:induction false} KeptPlusDeleted<T>(rows: seq<T>, keys: seq<string>)
    requires |keys| == |rows|
    ensures |KeepNonEmpty(rows, keys)| + |DeleteTargets(keys)| == |rows|
  {
    if rows != [] {
      KeptPlusDeleted(rows[..|rows| - 1], keys[..|keys| - 1]);
    }
  }

  /**
   * The corrected deletions remove exactly the empty rows among the first
   * `|keys|` and leave the rest of the sheet as it was.
   */
  lemma {:induction false} CorrectedDeletesEmpty<T>(rows: seq<T>, keys: seq<string>)
    requires |keys| <= |rows|
    ensures DeleteAll(rows, Shifted(DeleteTargets(keys))) == KeepNonEmpty(rows[..|keys|], keys) + rows[|keys|..]
  {
    if keys != [] {
      var n := |keys|;
      var earlier := DeleteTargets(keys[..n - 1]);
      var kept := KeepNonEmpty(rows[..n - 1], keys[..n - 1]);
      CorrectedDeletesEmpty(rows, keys[..n - 1]);
      KeptPlusDeleted(rows[..n - 1], keys[..n - 1]);
      KeepNonEmptyPrefix(rows, keys);
      if keys[n - 1] == "" {
        CorrectedEmptyRow(rows, n, earlier, kept);
        calc {
          DeleteAll(rows, Shifted(DeleteTargets(keys)));
          { assert DeleteTargets(keys) == earlier + [n]; }
          DeleteAll(rows, Shifted(earlier + [n]));
          kept + rows[n..];
          { assert KeepNonEmpty(rows[..n], keys) == kept; }
          KeepNonEmpty(rows[..n], keys) + rows[n..];
        }
      } else {
        KeptRow(rows, n, kept);
        calc {
          DeleteAll(rows, Shifted(DeleteTargets(keys)));
          { assert DeleteTargets(keys) == earlier; }
          DeleteAll(rows, Shifted(earlier));
          (kept + [rows[n - 1]]) + rows[n..];
          { assert KeepNonEmpty(rows[..n], keys) == kept + [rows[n - 1]]; }
          KeepNonEmpty(rows[..n], keys) + rows[n..];
        }
      }
    }
  }

  lemma KeepNonEmptyPrefix<T>(rows: seq<T>, keys: seq<string>)
    requires 0 < |keys| <= |rows|
    ensures var n := |keys|;
      KeepNonEmpty(rows[..n], keys) ==
        KeepNonEmpty(rows[..n - 1], keys[..n - 1]) + (if keys[n - 1] == "" then [] else [rows[n - 1]])
  {
    assert rows[..|keys|][..|keys| - 1] == rows[..|keys| - 1];
  }

  /**
   * The inductive step of `CorrectedDeletesEmpty` for an empty row `n`: the
   * shifted target of its deletion is its current position.
   */
  lemma CorrectedEmptyRow<T>(rows: seq<T>, n: nat, earlier: seq<int>, kept: seq<T>)
    requires 0 < n <= |rows| && |kept| + |earlier| == n - 1
    requires DeleteAll(rows, Shifted(earlier)) == kept + rows[n - 1..]
    ensures DeleteAll(rows, Shifted(earlier + [n])) == kept + rows[n..]
  {
    ShiftedSnoc(earlier, n);
    DeleteAllSnoc(rows, Shifted(earlier), n - |earlier|);
    DeleteBetween(kept, rows[n - 1], rows[n..]);
    KeptRow(rows, n, kept);
  }

  /** The inductive step of `CorrectedDeletesEmpty` for a kept row `n`. */
  lemma KeptRow<T>(rows: seq<T>, n: nat, kept: seq<T>)
    requires 0 < n <= |rows|
    ensures kept + rows[n - 1..] == (kept + [rows[n - 1]]) + rows[n..]
  {
    assert rows[n - 1..] == [rows[n - 1]] + rows[n..];
  }

  /**
   * One step of the corrected scan, at snapshot row `index`: from the state
   * after the rows before it to the state after it.
   */
  lemma CorrectedStep<T>(original: seq<T>, keys: seq<string>, index: nat,
                         removed: nat, removedNow: nat, before: seq<T>, after: seq<T>)
    requires index < |keys|
    requires removed == |DeleteTargets(keys[..index])|
    requires before == DeleteAll(original, Shifted(DeleteTargets(keys[..index])))
    requires keys[index] == "" ==> removedNow == removed + 1 && after == DeleteRowAt(before, index + 1 - removed)
    requires keys[index] != "" ==> removedNow == removed && after == before
    ensures removedNow == |DeleteTargets(keys[..index + 1])|
    ensures after == DeleteAll(original, Shifted(DeleteTargets(keys[..index + 1])))
  {
    assert keys[..index + 1] == keys[..index] + [keys[index]];
    DeleteTargetsSnoc(keys[..index], keys[index]);
    var earlier := DeleteTargets(keys[..index]);
    if keys[index] == "" {
      assert DeleteTargets(keys[..index + 1]) == earlier + [index + 1];
      ShiftedSnoc(earlier, index + 1);
      DeleteAllSnoc(original, Shifted(earlier), index + 1 - removed);
    } else {
      assert DeleteTargets(keys[..index + 1]) == earlier;
    }
  }

  /**
   * The callback of the evident intent: as `VisitRow`, but aimed at the
   * row's current position, `index + 1` less the `removed` rows already
   * deleted, and counting its own deletion.
   */
  method VisitRowCorrected(sheet: Sheet, row: seq<string>, index: nat, removed: nat)
    returns (raised: bool, removedNow: nat)
    modifies sheet
    ensures raised <==> |row| < 3
    ensures !raised && ColumnC(row).value == "" ==>
      removedNow == removed + 1 && sheet.rows == DeleteRowAt(old(sheet.rows), index + 1 - removed)
    ensures raised || ColumnC(row).value != "" ==> removedNow == removed && sheet.rows == old(sheet.rows)
  {
    var cellValue := ColumnC(row);
    if cellValue.None? {
      return true, removed;
    }
    if cellValue.value == "" {
      sheet.DeleteRow(index + 1 - removed);
      return false, removed + 1;
    }
    return false, removed;
  }

  /** What the corrected scan keeps before snapshot row `index`. */
  ghost predicate CorrectedInv<T>(original: seq<T>, values: seq<seq<string>>, index: nat, removed: nat, rows: seq<T>) {
    && index <= FirstShort(values)
    && removed == |DeleteTargets(ColumnKeys(values, FirstShort(values))[..index])|
    && rows == DeleteAll(original, Shifted(DeleteTargets(ColumnKeys(values, FirstShort(values))[..index])))
  }

  /** One callback of the corrected scan, on a row that has a column C, keeps `CorrectedInv`. */
  lemma CorrectedAdvance<T>(original: seq<T>, values: seq<seq<string>>, index: nat,
                            removed: nat, removedNow: nat, before: seq<T>, after: seq<T>)
    requires index < |values| && |values[index]| >= 3
    requires CorrectedInv(original, values, index, removed, before)
    requires ColumnC(values[index]).value == "" ==>
      removedNow == removed + 1 && after == DeleteRowAt(before, index + 1 - removed)
    requires ColumnC(values[index]).value != "" ==> removedNow == removed && after == before
    ensures CorrectedInv(original, values, index + 1, removedNow, after)
  {
    BeforeFirstShort(values, index);
    ColumnKeyAt(values, FirstShort(values), index);
    CorrectedStep(original, ColumnKeys(values, FirstShort(values)), index, removed, removedNow, before, after);
  }

  /** The corrected scan ends, by a throw or after the last row, with all of its deletions done. */
  lemma CorrectedDone<T>(original: seq<T>, values: seq<seq<string>>, index: nat, removed: nat, rows: seq<T>)
    requires CorrectedInv(original, values, index, removed, rows)
    requires index == |values| || (index < |values| && |values[index]| < 3)
    ensures index == FirstShort(values)
    ensures rows == DeleteAll(original, Shifted(DeleteTargets(ColumnKeys(values, FirstShort(values)))))
  {
    var keys := ColumnKeys(values, FirstShort(values));
    assert keys[..index] == keys;
  }

  /**
   * The evident intent: the same forward scan, with each deletion aimed at
   * the row's current position. By `CorrectedDeletesEmpty`, up to the
   * first row without a column C the empty rows are gone and the rest of
   * the sheet is as it was.
   */
  method DeleteEmptyCorrected(sheet: Sheet) returns (raised: bool)
    modifies sheet
    ensures raised <==> FirstShort(old(sheet.Values())) < |old(sheet.rows)|
    ensures sheet.rows == DeleteAll(old(sheet.rows),
      Shifted(DeleteTargets(ColumnKeys(old(sheet.Values()), FirstShort(old(sheet.Values()))))))
  {
    var values := sheet.Values();
    ghost var original := sheet.rows;
    var removed := 0;
    for index := 0 to |values|
      invariant CorrectedInv(original, values, index, removed, sheet.rows)
    {
      ghost var before, removedBefore := sheet.rows, removed;
      raised, removed := VisitRowCorrected(sheet, values[index], index, removed);
      if raised {
        CorrectedDone(original, values, index, removed, sheet.rows);
        return;
      }
      CorrectedAdvance(original, values, index, removedBefore, removed, before, sheet.rows);
    }
    CorrectedDone(original, values, |values|, removed, sheet.rows);
    return false;
  }

  /**
   * With no row lacking a column C, the corrected scan keeps exactly the
   * rows whose normalised column C is not empty, in their order.
   */
  lemma CorrectedKeepsNonEmpty<T>(rows: seq<T>, values: seq<seq<string>>)
    requires |values| == |rows| && FirstShort(values) == |values|
    ensures var result := DeleteAll(rows, Shifted(DeleteTargets(ColumnKeys(values, |values|))));
      && result == KeepNonEmpty(rows, ColumnKeys(values, |values|))
      && (forall i :: 0 <= i < |rows| && !IsEmptyRow(values[i]) ==> rows[i] in result)
      && (forall r <- result :: exists i :: 0 <= i < |rows| && rows[i] == r && !IsEmptyRow(values[i]))
  {
    var keys := ColumnKeys(values, |values|);
    CorrectedDeletesEmpty(rows, keys);
    assert rows[..|keys|] == rows && rows[|keys|..] == [];
    KeepNonEmptyMembers(rows, keys);
    forall i | 0 <= i < |rows| ensures IsEmptyRow(values[i]) <==> keys[i] == "" {
      ColumnKeyAt(values, |values|, i);
    }
  }

  /**
   * The script as written on three rows whose column C is "", "" and "x":
   * it deletes rows 1 and 2 of the live sheet, which by then are the second
   * empty row and the non-empty one, and leaves the first empty row.
   */
  lemma AsWrittenDeletesWrongRow(empty: SheetRow, full: SheetRow)
    requires empty.cells == ["a", "b", ""] && full.cells == ["a", "b", "x"]
    ensures var rows := [empty, empty, full];
      var values := [empty.cells, empty.cells, full.cells];
      && FirstShort(values) == 3
      && DeleteAll(rows, DeleteTargets(ColumnKeys(values, FirstShort(values)))) == [empty]
      && !IsEmptyRow(full.cells) && IsEmptyRow(empty.cells)
  {
    ExampleKeys(empty.cells, full.cells);
    ExampleDeletions(empty, empty, full);
  }

  /** The normalised column C of the three example rows. */
  lemma ExampleKeys(empty: seq<string>, full: seq<string>)
    requires empty == ["a", "b", ""] && full == ["a", "b", "x"]
    ensures FirstShort([empty, empty, full]) == 3
    ensures ColumnKeys([empty, empty, full], 3) == ["", "", "x"]
    ensures ColumnC(empty) == Some("") && ColumnC(full) == Some("x")
  {
    var values := [empty, empty, full];
    assert Lower("") == "" && Lower("x") == "x";
    assert SpaceRunFrom(JavaScript, "x", 0) == 0 && SpaceRunDownTo(JavaScript, "x", 0, 1) == 1;
    assert Strip(JavaScript, "x") == "x"[0..1] == "x";
    assert FirstShort(values) == 3 by {
      assert FirstShortFrom(values, 3) == 3;
    }
    assert ColumnKeys(values, 1) == [""];
    assert ColumnKeys(values, 2) == ["", ""];
  }

  /** The two deletions the script makes for keys "", "" and "x". */
  lemma ExampleDeletions<T>(first: T, second: T, third: T)
    ensures DeleteTargets(["", "", "x"]) == [1, 2]
    ensures DeleteAll([first, second, third], [1, 2]) == [second]
  {
    assert ["", "", "x"][..2] == ["", ""] && ["", ""][..1] == [""];
    assert [1, 2][..1] == [1];
    assert DeleteAll([first, second, third], [1]) == [second, third];
  }
}
