/**
 * spreadscheets/duplicates.js: colour yellow every row of the active sheet
 * whose column C, lower-cased and trimmed, repeats that of an earlier row.
 */
module Duplicates {
  import opened Wrappers
  import opened Seqs
  import opened Text
  import opened Sheets

  /** The keys among the first `n`. */
  function KeysBefore<T>(keys: seq<T>, n: nat): set<T>
    requires n <= |keys|
  {
    set j | 0 <= j < n :: keys[j]
  }

  /** Key `i` equals some earlier key. */
  predicate Repeats<T(==)>(keys: seq<T>, i: nat)
    requires i < |keys|
  {
    exists j :: 0 <= j < i && keys[j] == keys[i]
  }

  lemma KeysBeforeStep<T>(keys: seq<T>, i: nat)
    requires i < |keys|
    ensures KeysBefore(keys, i + 1) == KeysBefore(keys, i) + {keys[i]}
    ensures Repeats(keys, i) <==> keys[i] in KeysBefore(keys, i)
  {
    forall k | k in KeysBefore(keys, i + 1) ensures k in KeysBefore(keys, i) + {keys[i]} {
      var j :| 0 <= j < i + 1 && keys[j] == k;
      if j < i {
        assert k in KeysBefore(keys, i);
      }
    }
    if keys[i] in KeysBefore(keys, i) {
      var j :| 0 <= j < i && keys[j] == keys[i];
    }
  }

  /** The indices among `0 .. n - 1` of the keys that repeat an earlier one, in ascending order. */
  function MarkedBefore<T(==)>(keys: seq<T>, n: nat): seq<nat>
    requires n <= |keys|
  {
    if n == 0 then []
    else MarkedBefore(keys, n - 1) + (if Repeats(keys, n - 1) then [n - 1] else [])
  }

  /**
   * The marked indices are exactly the repeating keys, ascending, and each
   * key is either marked or adds a new element to the set of keys.
   */
  lemma MarkedBeforeSpec<T>(keys: seq<T>, n: nat)
    requires n <= |keys|
    ensures forall j :: 0 <= j < n ==> (j in MarkedBefore(keys, n) <==> Repeats(keys, j))
    ensures forall k :: 0 <= k < |MarkedBefore(keys, n)| ==> MarkedBefore(keys, n)[k] < n
    ensures Increasing(MarkedBefore(keys, n))
    ensures |MarkedBefore(keys, n)| + |KeysBefore(keys, n)| == n
  {
    MarkedExactly(keys, n);
    MarkedAscending(keys, n);
    MarkedOrNew(keys, n);
  }

  lemma {:induction false} MarkedExactly<T>(keys: seq<T>, n: nat)
    requires n <= |keys|
    ensures forall k :: 0 <= k < |MarkedBefore(keys, n)| ==> MarkedBefore(keys, n)[k] < n
    ensures forall j :: 0 <= j < n ==> (j in MarkedBefore(keys, n) <==> Repeats(keys, j))
  {
    if n > 0 {
      MarkedExactly(keys, n - 1);
    }
  }

  lemma {:induction false} MarkedAscending<T>(keys: seq<T>, n: nat)
    requires n <= |keys|
    ensures Increasing(MarkedBefore(keys, n))
  {
    if n > 0 {
      MarkedAscending(keys, n - 1);
      MarkedExactly(keys, n - 1);
    }
  }

  lemma {:induction false} MarkedOrNew<T>(keys: seq<T>, n: nat)
    requires n <= |keys|
    ensures |MarkedBefore(keys, n)| + |KeysBefore(keys, n)| == n
  {
    if n > 0 {
      MarkedOrNew(keys, n - 1);
      KeysBeforeStep(keys, n - 1);
    }
  }

  /** One step of the scan: a seen key is marked, an unseen one is added to the seen set. */
  lemma ScanStep<T>(keys: seq<T>, i: nat, seen: set<T>, marked: seq<nat>)
    requires i < |keys|
    requires seen == KeysBefore(keys, i) && marked == MarkedBefore(keys, i)
    ensures keys[i] in seen ==> seen == KeysBefore(keys, i + 1) && marked + [i] == MarkedBefore(keys, i + 1)
    ensures keys[i] !in seen ==> seen + {keys[i]} == KeysBefore(keys, i + 1) && marked == MarkedBefore(keys, i + 1)
  {
    KeysBeforeStep(keys, i);
  }

  /** The state of the scan after the rows before `i`. */
  ghost predicate ScanInv(values: seq<seq<string>>, i: nat, seen: set<string>, marked: seq<nat>) {
    && i <= FirstShort(values)
    && seen == KeysBefore(ColumnKeys(values, FirstShort(values)), i)
    && marked == MarkedBefore(ColumnKeys(values, FirstShort(values)), i)
  }

  /** One iteration of the scan, from the state before row `i` to the state after it. */
  lemma ScanAdvance(values: seq<seq<string>>, i: nat, seen: set<string>, marked: seq<nat>, key: string,
                    seen': set<string>, marked': seq<nat>)
    requires i < |values| && ScanInv(values, i, seen, marked) && ColumnC(values[i]) == Some(key)
    requires key in seen ==> seen' == seen && marked' == marked + [i]
    requires key !in seen ==> seen' == seen + {key} && marked' == marked
    ensures ScanInv(values, i + 1, seen', marked')
  {
    BeforeFirstShort(values, i);
    ColumnKeyAt(values, FirstShort(values), i);
    ScanStep(ColumnKeys(values, FirstShort(values)), i, seen, marked);
  }

  /** A scan that passed every row has the repeating rows and the keys of all of them. */
  lemma ScanDone(values: seq<seq<string>>, seen: set<string>, marked: seq<nat>)
    requires ScanInv(values, |values|, seen, marked)
    ensures FirstShort(values) == |values|
    ensures marked == MarkedBefore(ColumnKeys(values, |values|), |values|)
    ensures seen == KeysBefore(ColumnKeys(values, |values|), |values|)
  {
  }

  /**
   * The `forEach` scan of `colorDuplicateRows`: the indices of the rows
   * whose key was already seen, and the set of keys seen. The scan throws
   * at the first row without a column C.
   */
  method FindDuplicateRows(values: seq<seq<string>>) returns (duplicateRows: Try<seq<nat>>, seenValues: set<string>)
    ensures duplicateRows.Raised? <==> FirstShort(values) < |values|
    ensures duplicateRows.Returned? ==> duplicateRows.value == MarkedBefore(ColumnKeys(values, |values|), |values|)
    ensures duplicateRows.Returned? ==> seenValues == KeysBefore(ColumnKeys(values, |values|), |values|)
  {
    var seen: set<string> := {};
    var marked: seq<nat> := [];
    for i := 0 to |values|
      invariant ScanInv(values, i, seen, marked)
    {
      var key := ColumnC(values[i]);
      if key.None? {
        return Raised, seen;
      }
      ghost var seenBefore, markedBefore := seen, marked;
      if key.value in seen {
        marked := marked + [i];
      } else {
        seen := seen + {key.value};
      }
      ScanAdvance(values, i, seenBefore, markedBefore, key.value, seen, marked);
    }
    ScanDone(values, seen, marked);
    return Returned(marked), seen;
  }

  /** The second `forEach`: colour each listed 0-based row index, 1-based row `index + 1`. */
  method ColorRows(sheet: Sheet, rowIndices: seq<nat>, colour: string)
    modifies sheet
    ensures |sheet.rows| == |old(sheet.rows)|
    ensures forall i :: 0 <= i < |sheet.rows| ==>
      sheet.rows[i] == (if i in rowIndices then old(sheet.rows)[i].(background := colour) else old(sheet.rows)[i])
  {
    for k := 0 to |rowIndices|
      invariant |sheet.rows| == |old(sheet.rows)|
      invariant forall i :: 0 <= i < |sheet.rows| ==>
        sheet.rows[i] == (if i in rowIndices[..k] then old(sheet.rows)[i].(background := colour) else old(sheet.rows)[i])
    {
      assert rowIndices[..k + 1] == rowIndices[..k] + [rowIndices[k]];
      sheet.SetRowBackground(rowIndices[k] + 1, colour);
    }
    assert rowIndices[..|rowIndices|] == rowIndices;
  }

  /**
   * `colorDuplicateRows`: every row that repeats an earlier key gets a
   * yellow background; nothing else changes, and nothing at all when the
   * scan throws.
   */
  method ColorDuplicateRows(sheet: Sheet)
    modifies sheet
    ensures FirstShort(old(sheet.Values())) < |old(sheet.rows)| ==> sheet.rows == old(sheet.rows)
    ensures FirstShort(old(sheet.Values())) == |old(sheet.rows)| ==>
      |sheet.rows| == |old(sheet.rows)| &&
      forall i :: 0 <= i < |sheet.rows| ==>
        sheet.rows[i] == (if Repeats(ColumnKeys(old(sheet.Values()), |old(sheet.rows)|), i)
                          then old(sheet.rows)[i].(background := "yellow") else old(sheet.rows)[i])
  {
    ghost var values := sheet.Values();
    var duplicateRows, seenValues := FindDuplicateRows(sheet.Values());
    if duplicateRows.Raised? {
      return;
    }
    MarkedBeforeSpec(ColumnKeys(values, |values|), |values|);
    ColorRows(sheet, duplicateRows.value, "yellow");
  }
}
