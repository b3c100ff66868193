/**
 * spreadscheets/matching-words.js: delete every row of the active sheet
 * whose cells, joined with commas, contain the word "robot".
 */
module MatchingWords {
  import opened Text
  import opened Sheets

  /** The pattern `/robot/`, matched case-sensitively. */
  const Word: string := "robot"

  /** `values[i].join().match(/robot/)` is truthy. */
  predicate Matches(cells: seq<string>) {
    Contains(Join(cells, ","), Word)
  }

  /** The rows that do not match, in their original order. */
  function KeepUnmatched(rows: seq<SheetRow>): (kept: seq<SheetRow>)
    ensures |kept| <= |rows|
  {
    if rows == [] then []
    else (if Matches(rows[0].cells) then [] else [rows[0]]) + KeepUnmatched(rows[1..])
  }

  /** A row survives exactly when it is one of the rows and does not match. */
  lemma {:induction false} KeepUnmatchedMembers(rows: seq<SheetRow>)
    ensures forall r :: r in KeepUnmatched(rows) <==> r in rows && !Matches(r.cells)
  {
    if rows != [] {
      KeepUnmatchedMembers(rows[1..]);
      assert forall r :: r in rows <==> r == rows[0] || r in rows[1..];
    }
  }

  /** Filtering distributes over concatenation, so relative order is kept. */
  lemma {:induction false} KeepUnmatchedConcat(a: seq<SheetRow>, b: seq<SheetRow>)
    ensures KeepUnmatched(a + b) == KeepUnmatched(a) + KeepUnmatched(b)
  {
    if a == [] {
      assert a + b == b;
    } else {
      assert (a + b)[0] == a[0];
      assert (a + b)[1..] == a[1..] + b;
      KeepUnmatchedConcat(a[1..], b);
    }
  }

  /** A sheet with no matching row is left as it is. */
  lemma {:induction false} KeepUnmatchedNone(rows: seq<SheetRow>)
    requires forall i :: 0 <= i < |rows| ==> !Matches(rows[i].cells)
    ensures KeepUnmatched(rows) == rows
  {
    if rows != [] {
      KeepUnmatchedNone(rows[1..]);
    }
  }

  /**
   * One iteration of `deleteRows`, at row `i`: from the sheet with rows
   * above `i + 1` untouched to the sheet with rows above `i` untouched.
   */
  lemma DeleteRowsStep(original: seq<SheetRow>, i: nat, before: seq<SheetRow>, after: seq<SheetRow>)
    requires i < |original|
    requires before == original[..i + 1] + KeepUnmatched(original[i + 1..])
    requires Matches(original[i].cells) ==> after == DeleteRowAt(before, i + 1)
    requires !Matches(original[i].cells) ==> after == before
    ensures after == original[..i] + KeepUnmatched(original[i..])
  {
    var rest := KeepUnmatched(original[i + 1..]);
    assert original[i..][0] == original[i];
    assert original[i..][1..] == original[i + 1..];
    assert original[..i + 1] == original[..i] + [original[i]];
    if Matches(original[i].cells) {
      DeleteBetween(original[..i], original[i], rest);
    } else {
      assert before == original[..i] + ([original[i]] + rest);
    }
  }

  /**
   * `deleteRows`: visit the rows from the last down to the first and
   * delete 1-based row `i + 1` when row `i` matches. Deleting from the
   * bottom up leaves the rows not yet visited where the snapshot has them.
   */
  method DeleteRows(sheet: Sheet)
    modifies sheet
    ensures sheet.rows == KeepUnmatched(old(sheet.rows))
  {
    var values := sheet.Values();
    ghost var original := sheet.rows;
    var i := |values| - 1;
    while i >= 0
      invariant -1 <= i < |values|
      invariant sheet.rows == original[..i + 1] + KeepUnmatched(original[i + 1..])
    {
      ghost var before := sheet.rows;
      if Matches(values[i]) {
        sheet.DeleteRow(i + 1);
      }
      DeleteRowsStep(original, i, before, sheet.rows);
      i := i - 1;
    }
    assert original[0..] == original;
  }
}
