/**
 * Exact-key duplicate resolution by DOI (zotero/dedup.py): bucket the
 * (itemID, DOI) rows by stripped, lower-cased DOI, then plan to keep the
 * lowest itemID of every bucket with more than one member.
 */
module Dedup {
  import opened Wrappers
  import opened Text
  import opened Seqs
  import opened DeletionPlan

  /** One row of the DOI query: an item and the raw value of its DOI field. */
  datatype Row = Row(itemId: int, doi: Option<string>)

  /** Python truthiness of the raw DOI: neither None nor the empty string. */
  predicate HasDoi(r: Row) {
    r.doi.Some? && r.doi.value != ""
  }

  /** `doi.strip().lower()` */
  function NormalizeDoi(doi: string): (k: string)
    ensures |k| <= |doi|
    ensures forall i :: 0 <= i < |k| ==> !IsUpper(k[i])
    ensures k == "" <==> AllSpace(Python, doi)
  {
    StripEmpty(Python, doi);
    Lower(Strip(Python, doi))
  }

  function Key(r: Row): string
    requires HasDoi(r)
  {
    NormalizeDoi(r.doi.value)
  }

  /** Row `r` is counted and normalises to `k`. */
  predicate HasKey(r: Row, k: string) {
    HasDoi(r) && Key(r) == k
  }

  /** Reference: the number of rows with a non-empty DOI. */
  function CountWithDoi(items: seq<Row>): nat {
    if items == [] then 0
    else CountWithDoi(items[..|items| - 1]) + (if HasDoi(items[|items| - 1]) then 1 else 0)
  }

  /** Reference: the itemIDs of the rows whose normalised DOI is `k`, in input order. */
  function IdsWithKey(items: seq<Row>, k: string): seq<int> {
    if items == [] then []
    else
      var r := items[|items| - 1];
      IdsWithKey(items[..|items| - 1], k) + (if HasKey(r, k) then [r.itemId] else [])
  }

  /** Reference: the set of normalised DOIs of the rows with a non-empty DOI. */
  function DoiKeys(items: seq<Row>): set<string> {
    if items == [] then {}
    else
      var r := items[|items| - 1];
      DoiKeys(items[..|items| - 1]) + (if HasDoi(r) then {Key(r)} else {})
  }

  /** Reference: the normalised DOIs in order of first occurrence (the dictionary's key order). */
  function KeyOrder(items: seq<Row>): seq<string> {
    if items == [] then []
    else
      var r := items[|items| - 1];
      var ks := KeyOrder(items[..|items| - 1]);
      if HasDoi(r) && Key(r) !in ks then ks + [Key(r)] else ks
  }

  /** The first-occurrence order lists every normalised DOI exactly once. */
  lemma {:induction false} KeyOrderSpec(items: seq<Row>)
    ensures Distinct(KeyOrder(items))
    ensures (set k | k in KeyOrder(items)) == DoiKeys(items)
  {
    if items != [] {
      KeyOrderSpec(items[..|items| - 1]);
    }
  }

  /** A key is a normalised DOI exactly when some row with a non-empty DOI normalises to it. */
  lemma {:induction false} DoiKeysSpec(items: seq<Row>, k: string)
    ensures k in DoiKeys(items) <==> exists i :: 0 <= i < |items| && HasKey(items[i], k)
  {
    if items != [] {
      var init := items[..|items| - 1];
      DoiKeysSpec(init, k);
      if k in DoiKeys(init) {
        var i :| 0 <= i < |init| && HasKey(init[i], k);
        assert items[i] == init[i];
      }
      if exists i :: 0 <= i < |items| && HasKey(items[i], k) {
        var i :| 0 <= i < |items| && HasKey(items[i], k);
        if i < |init| { assert init[i] == items[i]; }
      }
    }
  }

  /** Every counted row's itemID is in the group of its normalised DOI. */
  lemma {:induction false} RowInGroup(items: seq<Row>, i: nat)
    requires i < |items| && HasDoi(items[i])
    ensures items[i].itemId in IdsWithKey(items, Key(items[i]))
  {
    var init := items[..|items| - 1];
    if i < |init| {
      assert init[i] == items[i];
      RowInGroup(init, i);
    }
  }

  /** Every member of a group comes from a counted row with that normalised DOI. */
  lemma {:induction false} GroupMemberFromRow(items: seq<Row>, k: string, x: int)
    requires x in IdsWithKey(items, k)
    ensures exists i :: 0 <= i < |items| && HasKey(items[i], k) && items[i].itemId == x
  {
    var init := items[..|items| - 1];
    var r := items[|items| - 1];
    if x in IdsWithKey(init, k) {
      GroupMemberFromRow(init, k, x);
      var i :| 0 <= i < |init| && HasKey(init[i], k) && init[i].itemId == x;
      assert items[i] == init[i];
    } else {
      assert HasKey(items[|items| - 1], k);
    }
  }

  lemma {:induction false} AbsentKeyHasNoIds(items: seq<Row>, k: string)
    requires k !in DoiKeys(items)
    ensures IdsWithKey(items, k) == []
  {
    if items != [] {
      AbsentKeyHasNoIds(items[..|items| - 1], k);
    }
  }

  /** Sum of the group sizes over a list of keys. */
  function SumSizes(items: seq<Row>, ks: seq<string>): nat {
    if ks == [] then 0 else |IdsWithKey(items, ks[0])| + SumSizes(items, ks[1..])
  }

  function Occurrences(ks: seq<string>, k: string): nat {
    if ks == [] then 0 else (if ks[0] == k then 1 else 0) + Occurrences(ks[1..], k)
  }

  lemma {:induction false} OccurrencesDistinct(ks: seq<string>, k: string)
    requires Distinct(ks)
    ensures Occurrences(ks, k) == if k in ks then 1 else 0
  {
    if ks != [] {
      OccurrencesDistinct(ks[1..], k);
      assert ks[0] !in ks[1..];
    }
  }

  lemma {:induction false} SumSizesSnoc(items: seq<Row>, r: Row, ks: seq<string>)
    ensures SumSizes(items + [r], ks) == SumSizes(items, ks) + (if HasDoi(r) then Occurrences(ks, Key(r)) else 0)
  {
    assert (items + [r])[..|items + [r]| - 1] == items;
    if ks != [] {
      SumSizesSnoc(items, r, ks[1..]);
    }
  }

  /**
   * The groups partition the counted rows: over any duplicate-free list of
   * keys that covers every normalised DOI, the group sizes add up to the
   * number of rows with a non-empty DOI.
   */
  lemma {:induction false} GroupsPartitionRows(items: seq<Row>, ks: seq<string>)
    requires Distinct(ks) && DoiKeys(items) <= set k | k in ks
    ensures SumSizes(items, ks) == CountWithDoi(items)
  {
    if items == [] {
      EmptyGroups(ks);
    } else {
      var init := items[..|items| - 1];
      var r := items[|items| - 1];
      assert items == init + [r];
      GroupsPartitionRows(init, ks);
      SumSizesSnoc(init, r, ks);
      if HasDoi(r) {
        OccurrencesDistinct(ks, Key(r));
      }
    }
  }

  lemma {:induction false} EmptyGroups(ks: seq<string>)
    ensures SumSizes([], ks) == 0
  {
    if ks != [] {
      EmptyGroups(ks[1..]);
    }
  }

  /** What the grouping loop keeps after the first `i` rows. */
  ghost predicate GroupInv(items: seq<Row>, i: nat, groups: map<string, seq<int>>, keys: seq<string>, count: nat) {
    KeysInv(items, i, groups, keys, count) && IdsInv(items, i, groups)
  }

  /** The counter and the key order after the first `i` rows. */
  ghost predicate KeysInv(items: seq<Row>, i: nat, groups: map<string, seq<int>>, keys: seq<string>, count: nat) {
    && i <= |items|
    && count == CountWithDoi(items[..i])
    && keys == KeyOrder(items[..i])
    && groups.Keys == DoiKeys(items[..i]) == set k | k in keys
  }

  /** The groups after the first `i` rows. */
  ghost predicate IdsInv(items: seq<Row>, i: nat, groups: map<string, seq<int>>)
    requires i <= |items|
  {
    forall k <- groups.Keys :: groups[k] == IdsWithKey(items[..i], k) && groups[k] != []
  }

  /** Row `r`, counted or not, added to the groups. */
  ghost predicate Grouped(r: Row, groups: map<string, seq<int>>, keys: seq<string>, count: nat,
                          groups': map<string, seq<int>>, keys': seq<string>, count': nat) {
    if HasDoi(r) then
      count' == count + 1 &&
      if Key(r) in groups then groups' == groups[Key(r) := groups[Key(r)] + [r.itemId]] && keys' == keys
      else groups' == groups[Key(r) := [r.itemId]] && keys' == keys + [Key(r)]
    else groups' == groups && keys' == keys && count' == count
  }

  /** The reference functions on the first `i + 1` rows, in terms of the first `i`. */
  lemma PrefixFacts(items: seq<Row>, i: nat)
    requires i < |items|
    ensures var p, q, r := items[..i], items[..i + 1], items[i];
      && CountWithDoi(q) == CountWithDoi(p) + (if HasDoi(r) then 1 else 0)
      && KeyOrder(q) == (if HasDoi(r) && Key(r) !in KeyOrder(p) then KeyOrder(p) + [Key(r)] else KeyOrder(p))
      && DoiKeys(q) == DoiKeys(p) + (if HasDoi(r) then {Key(r)} else {})
      && forall k :: IdsWithKey(q, k) == IdsWithKey(p, k) + (if HasKey(r, k) then [r.itemId] else [])
  {
    assert items[..i + 1][..i] == items[..i];
  }

  /** One row of the grouping loop keeps `GroupInv`. */
  lemma GroupStep(items: seq<Row>, i: nat, groups: map<string, seq<int>>, keys: seq<string>, count: nat,
                  groups': map<string, seq<int>>, keys': seq<string>, count': nat)
    requires i < |items| && GroupInv(items, i, groups, keys, count)
    requires Grouped(items[i], groups, keys, count, groups', keys', count')
    ensures GroupInv(items, i + 1, groups', keys', count')
  {
    var r := items[i];
    if !HasDoi(r) {
      SkipRow(items, i, groups, keys, count);
    } else if Key(r) in groups {
      JoinGroup(items, i, groups, keys, count);
    } else {
      NewGroup(items, i, groups, keys, count);
    }
  }

  /** A row without a DOI changes nothing. */
  lemma SkipRow(items: seq<Row>, i: nat, groups: map<string, seq<int>>, keys: seq<string>, count: nat)
    requires i < |items| && GroupInv(items, i, groups, keys, count) && !HasDoi(items[i])
    ensures GroupInv(items, i + 1, groups, keys, count)
  {
    PrefixFacts(items, i);
    assert forall k :: !HasKey(items[i], k);
  }

  /** A row whose normalised DOI already has a group joins it. */
  lemma JoinGroup(items: seq<Row>, i: nat, groups: map<string, seq<int>>, keys: seq<string>, count: nat)
    requires i < |items| && GroupInv(items, i, groups, keys, count) && HasDoi(items[i]) && Key(items[i]) in groups
    ensures var r := items[i];
      GroupInv(items, i + 1, groups[Key(r) := groups[Key(r)] + [r.itemId]], keys, count + 1)
  {
    PrefixFacts(items, i);
    var r := items[i];
    var groups' := groups[Key(r) := groups[Key(r)] + [r.itemId]];
    assert Key(r) in keys;
    assert DoiKeys(items[..i + 1]) == DoiKeys(items[..i]);
    assert groups'.Keys == groups.Keys;
    forall k <- groups'.Keys ensures groups'[k] == IdsWithKey(items[..i + 1], k) && groups'[k] != [] {
      assert HasKey(r, k) <==> k == Key(r);
    }
  }

  /** A row with a new normalised DOI opens a group and adds the key at the end. */
  lemma NewGroup(items: seq<Row>, i: nat, groups: map<string, seq<int>>, keys: seq<string>, count: nat)
    requires i < |items| && GroupInv(items, i, groups, keys, count) && HasDoi(items[i]) && Key(items[i]) !in groups
    ensures var r := items[i];
      GroupInv(items, i + 1, groups[Key(r) := [r.itemId]], keys + [Key(r)], count + 1)
  {
    NewGroupKeys(items, i, groups, keys, count);
    NewGroupIds(items, i, groups, keys, count);
  }

  lemma NewGroupKeys(items: seq<Row>, i: nat, groups: map<string, seq<int>>, keys: seq<string>, count: nat)
    requires i < |items| && KeysInv(items, i, groups, keys, count) && HasDoi(items[i]) && Key(items[i]) !in groups
    ensures var r := items[i];
      KeysInv(items, i + 1, groups[Key(r) := [r.itemId]], keys + [Key(r)], count + 1)
  {
    PrefixFacts(items, i);
    var r := items[i];
    assert Key(r) !in keys;
    assert (set k | k in keys + [Key(r)]) == (set k | k in keys) + {Key(r)};
  }

  lemma NewGroupIds(items: seq<Row>, i: nat, groups: map<string, seq<int>>, keys: seq<string>, count: nat)
    requires i < |items| && KeysInv(items, i, groups, keys, count) && IdsInv(items, i, groups)
    requires HasDoi(items[i]) && Key(items[i]) !in groups
    ensures var r := items[i];
      IdsInv(items, i + 1, groups[Key(r) := [r.itemId]])
  {
    PrefixFacts(items, i);
    var r := items[i];
    var groups' := groups[Key(r) := [r.itemId]];
    AbsentKeyHasNoIds(items[..i], Key(r));
    forall k <- groups'.Keys ensures groups'[k] == IdsWithKey(items[..i + 1], k) && groups'[k] != [] {
      assert HasKey(r, k) <==> k == Key(r);
    }
  }

  /**
   * The grouping loop: every row with a non-empty DOI is counted and its
   * itemID appended to the group of its normalised DOI.
   */
  method GroupByDoi(items: seq<Row>) returns (groups: map<string, seq<int>>, keys: seq<string>, itemsWithDoi: nat)
    ensures itemsWithDoi == CountWithDoi(items)
    ensures keys == KeyOrder(items) && Distinct(keys)
    ensures (set k | k in keys) == groups.Keys == DoiKeys(items)
    ensures forall k <- groups.Keys :: groups[k] == IdsWithKey(items, k) && groups[k] != []
    ensures |groups| == |DoiKeys(items)|
  {
    groups, keys, itemsWithDoi := map[], [], 0;
    for i := 0 to |items|
      invariant GroupInv(items, i, groups, keys, itemsWithDoi)
    {
      var r := items[i];
      ghost var groupsBefore, keysBefore, countBefore := groups, keys, itemsWithDoi;
      if r.doi.Some? && r.doi.value != "" {
        itemsWithDoi := itemsWithDoi + 1;
        var doi := NormalizeDoi(r.doi.value);
        if doi in groups {
          groups := groups[doi := groups[doi] + [r.itemId]];
        } else {
          groups := groups[doi := [r.itemId]];
          keys := keys + [doi];
        }
      }
      GroupStep(items, i, groupsBefore, keysBefore, countBefore, groups, keys, itemsWithDoi);
    }
    GroupDone(items, groups, keys, itemsWithDoi);
  }

  lemma GroupDone(items: seq<Row>, groups: map<string, seq<int>>, keys: seq<string>, count: nat)
    requires GroupInv(items, |items|, groups, keys, count)
    ensures count == CountWithDoi(items)
    ensures keys == KeyOrder(items) && Distinct(keys)
    ensures (set k | k in keys) == groups.Keys == DoiKeys(items)
    ensures forall k <- groups.Keys :: groups[k] == IdsWithKey(items, k) && groups[k] != []
    ensures |groups| == |DoiKeys(items)|
  {
    assert items[..|items|] == items;
    KeyOrderSpec(items);
    assert |groups| == |groups.Keys|;
  }

  /** The group sizes add up to `items_with_doi`: no counted row is lost or grouped twice. */
  lemma GroupByDoiPartition(items: seq<Row>, groups: map<string, seq<int>>, keys: seq<string>)
    requires Distinct(keys) && (set k | k in keys) == groups.Keys == DoiKeys(items)
    requires forall k <- groups.Keys :: groups[k] == IdsWithKey(items, k)
    ensures SumSizes(items, keys) == CountWithDoi(items)
  {
    GroupsPartitionRows(items, keys);
  }

  /** Reference: the normalised DOIs shared by more than one counted row. */
  function DuplicateDois(items: seq<Row>): set<string> {
    set k | k in DoiKeys(items) && |IdsWithKey(items, k)| > 1
  }

  /** The whole resolver: group, then plan. */
  method ResolveByDoi(items: seq<Row>)
    returns (plan: seq<Deletion>, itemsWithDoi: nat, uniqueDois: nat, totalDuplicates: nat, totalDeleted: nat)
    ensures itemsWithDoi == CountWithDoi(items)
    ensures uniqueDois == |DoiKeys(items)|
    ensures forall d <- plan ::
              d.key in DoiKeys(items) && |IdsWithKey(items, d.key)| > 1 && d == Decide(d.key, IdsWithKey(items, d.key))
    ensures forall k <- DoiKeys(items) :: Planned(plan, k) <==> |IdsWithKey(items, k)| > 1
    ensures totalDuplicates == |plan| == |DuplicateDois(items)|
    ensures totalDeleted == TotalRemoved(plan)
  {
    var groups, keys;
    groups, keys, itemsWithDoi := GroupByDoi(items);
    uniqueDois := |groups|;
    plan, totalDuplicates, totalDeleted := PlanDeletions(groups, keys);
    assert DuplicateKeys(groups) == DuplicateDois(items);
  }

  /** The exact-key example: two spellings of one DOI and one other DOI. */
  const ExampleRows := [Row(4, Some("10.1/a")), Row(2, Some("10.1/A ")), Row(9, Some("10.2/b"))]

  /** A DOI that neither starts nor ends with whitespace is its own stripped form. */
  lemma StripUnpadded(s: string)
    requires s != "" && !IsSpace(Python, s[0]) && !IsSpace(Python, s[|s| - 1])
    ensures Strip(Python, s) == s
  {
    assert SpaceRunFrom(Python, s, 0) == 0;
    assert SpaceRunDownTo(Python, s, 0, |s|) == |s|;
  }

  /** Stripping drops one trailing whitespace character. */
  lemma StripTrailingSpace(s: string, c: char)
    requires s != "" && !IsSpace(Python, s[0]) && !IsSpace(Python, s[|s| - 1]) && IsSpace(Python, c)
    ensures Strip(Python, s + [c]) == s
  {
    var t := s + [c];
    assert SpaceRunFrom(Python, t, 0) == 0;
    assert SpaceRunDownTo(Python, t, 0, |s|) == |s|;
    assert SpaceRunDownTo(Python, t, 0, |t|) == |s|;
    assert t[..|s|] == s;
  }

  /** "10.1/A " and "10.1/a" normalise to the same DOI; "10.2/b" to itself. */
  lemma ExampleKeys()
    ensures Key(ExampleRows[0]) == "10.1/a" && Key(ExampleRows[1]) == "10.1/a" && Key(ExampleRows[2]) == "10.2/b"
  {
    StripUnpadded("10.1/a");
    StripUnpadded("10.2/b");
    assert "10.1/A " == "10.1/A" + [' '];
    StripTrailingSpace("10.1/A", ' ');
    assert Lower("10.1/A") == "10.1/a";
    LowerOfLower("10.1/a");
    LowerOfLower("10.2/b");
  }

  /** On the example the first two rows form the one duplicate group, keyed by "10.1/a". */
  lemma ExampleGroups()
    ensures DoiKeys(ExampleRows) == {"10.1/a", "10.2/b"}
    ensures IdsWithKey(ExampleRows, "10.1/a") == [4, 2] && IdsWithKey(ExampleRows, "10.2/b") == [9]
    ensures DuplicateDois(ExampleRows) == {"10.1/a"}
  {
    ExampleKeys();
    var r0, r1, r2 := ExampleRows[0], ExampleRows[1], ExampleRows[2];
    assert ExampleRows[..2][..1] == [r0] && ExampleRows[..2] == [r0, r1] && ExampleRows[..1] == [r0];
    assert DoiKeys([r0]) == {"10.1/a"};
    assert DoiKeys([r0, r1]) == {"10.1/a"};
    assert [r0] == [] + [r0] && [r0, r1] == [r0] + [r1] && ExampleRows == [r0, r1] + [r2];
    IdsWithKeySnoc([], r0, "10.1/a");
    IdsWithKeySnoc([r0], r1, "10.1/a");
    IdsWithKeySnoc([r0, r1], r2, "10.1/a");
    IdsWithKeySnoc([], r0, "10.2/b");
    IdsWithKeySnoc([r0], r1, "10.2/b");
    IdsWithKeySnoc([r0, r1], r2, "10.2/b");
  }

  /**
   * Any plan meeting the resolver's contract on the example keeps the lower
   * itemID 2, deletes 4 and leaves the third row alone.
   */
  lemma ExactKeyExample(plan: seq<Deletion>)
    requires forall d <- plan ::
               d.key in DoiKeys(ExampleRows) && |IdsWithKey(ExampleRows, d.key)| > 1
               && d == Decide(d.key, IdsWithKey(ExampleRows, d.key))
    requires |plan| == |DuplicateDois(ExampleRows)|
    ensures plan == [Deletion("10.1/a", 2, {4})]
  {
    ExampleGroups();
    ExampleDecision();
    SingleDuplicatePlan(ExampleRows, plan, "10.1/a");
  }

  /** When exactly one normalised DOI is shared, a plan meeting the resolver's contract is that DOI's decision alone. */
  lemma SingleDuplicatePlan(items: seq<Row>, plan: seq<Deletion>, k: string)
    requires forall d <- plan ::
               d.key in DoiKeys(items) && |IdsWithKey(items, d.key)| > 1 && d == Decide(d.key, IdsWithKey(items, d.key))
    requires DuplicateDois(items) == {k} && |plan| == 1
    ensures IdsWithKey(items, k) != [] && plan == [Decide(k, IdsWithKey(items, k))]
  {
    assert k in DuplicateDois(items);
    var d := plan[0];
    assert d in plan && d.key in DuplicateDois(items);
    assert plan == [d];
  }

  /** The decision for the group [4, 2]: keep 2, delete 4. */
  lemma ExampleDecision()
    ensures Decide("10.1/a", [4, 2]) == Deletion("10.1/a", 2, {4})
  {
    assert AsSet([4, 2]) == {2, 4};
  }

  /** Distinct itemIDs: the query yields at most one DOI field per item. */
  predicate DistinctIds(items: seq<Row>) {
    forall i, j :: 0 <= i < j < |items| ==> items[i].itemId != items[j].itemId
  }

  /** Row `r` survives the resolution over `all`: it has no DOI, or its itemID is the least of its group. */
  predicate Survives(all: seq<Row>, r: Row) {
    !HasDoi(r) || forall x <- IdsWithKey(all, Key(r)) :: r.itemId <= x
  }

  /** A counted row survives exactly when its itemID is not in its group's delete set. */
  lemma SurvivesIffNotRemoved(items: seq<Row>, i: nat)
    requires i < |items| && HasDoi(items[i])
    ensures var ids := IdsWithKey(items, Key(items[i]));
      ids != [] && (Survives(items, items[i]) <==> items[i].itemId !in Decide(Key(items[i]), ids).remove)
  {
    var r := items[i];
    var ids := IdsWithKey(items, Key(r));
    RowInGroup(items, i);
    var d := Decide(Key(r), ids);
    assert r.itemId in AsSet(ids);
    assert r.itemId == d.keep || r.itemId in d.remove;
    SurvivesIffLeast(r.itemId, ids, d.keep);
  }

  /** A member of `ids` is no greater than every member exactly when it equals the least one. */
  lemma SurvivesIffLeast(x: int, ids: seq<int>, keep: int)
    requires x in ids && keep in ids && forall j :: 0 <= j < |ids| ==> keep <= ids[j]
    ensures (forall y <- ids :: x <= y) <==> x == keep
  {
  }

  /** The rows of `rows` that survive the resolution over `all`, in order. */
  function SurvivorsOf(all: seq<Row>, rows: seq<Row>): seq<Row> {
    if rows == [] then []
    else
      var r := rows[|rows| - 1];
      SurvivorsOf(all, rows[..|rows| - 1]) + (if Survives(all, r) then [r] else [])
  }

  /** The survivor set: the input with every superseded member removed. */
  function Survivors(items: seq<Row>): seq<Row> {
    SurvivorsOf(items, items)
  }

  lemma IdsWithKeySnoc(items: seq<Row>, r: Row, k: string)
    ensures IdsWithKey(items + [r], k) == IdsWithKey(items, k) + (if HasKey(r, k) then [r.itemId] else [])
  {
    assert (items + [r])[..|items|] == items;
  }

  /** Two surviving rows with the same normalised DOI have the same itemID: the least of the group. */
  lemma SurvivorsShareId(all: seq<Row>, i: nat, j: nat, k: string)
    requires i < |all| && j < |all| && HasKey(all[i], k) && HasKey(all[j], k)
    requires Survives(all, all[i]) && Survives(all, all[j])
    ensures all[i].itemId == all[j].itemId
  {
    RowInGroup(all, i);
    RowInGroup(all, j);
  }

  /** With distinct itemIDs, a normalised DOI has at most one surviving row. */
  lemma UniqueSurvivor(all: seq<Row>, i: nat, j: nat, k: string)
    requires DistinctIds(all)
    requires i < |all| && j < |all| && HasKey(all[i], k) && HasKey(all[j], k)
    requires Survives(all, all[i]) && Survives(all, all[j])
    ensures i == j
  {
    SurvivorsShareId(all, i, j, k);
  }

  /** A surviving row has no surviving row with the same normalised DOI before it. */
  lemma NoEarlierSurvivor(all: seq<Row>, n: nat, k: string)
    requires DistinctIds(all) && n < |all| && HasKey(all[n], k) && Survives(all, all[n])
    ensures forall j :: 0 <= j < n ==> !(HasKey(all[j], k) && Survives(all, all[j]))
  {
    forall j | 0 <= j < n && HasKey(all[j], k) && Survives(all, all[j]) ensures false {
      UniqueSurvivor(all, j, n, k);
    }
  }

  lemma SurvivorsOfSnoc(all: seq<Row>, n: nat)
    requires 0 < n <= |all|
    ensures SurvivorsOf(all, all[..n]) == SurvivorsOf(all, all[..n - 1]) + (if Survives(all, all[n - 1]) then [all[n - 1]] else [])
  {
    assert all[..n][..n - 1] == all[..n - 1];
  }

  /**
   * Among the survivors of the first `n` rows, `k` has at most one row, and
   * that row is a surviving row of the prefix with key `k`.
   */
  ghost predicate OneSurvivor(all: seq<Row>, n: nat, k: string)
    requires n <= |all|
  {
    var s := IdsWithKey(SurvivorsOf(all, all[..n]), k);
    |s| <= 1 && (s != [] ==> exists j :: 0 <= j < n && HasKey(all[j], k) && Survives(all, all[j]) && s[0] == all[j].itemId)
  }

  /** Among the survivors of a prefix, each normalised DOI keeps at most one row. */
  lemma {:induction false} SurvivorsPrefix(all: seq<Row>, n: nat, k: string)
    requires n <= |all| && DistinctIds(all)
    ensures OneSurvivor(all, n, k)
  {
    if n > 0 {
      SurvivorsPrefix(all, n - 1, k);
      SurvivorsOfSnoc(all, n);
      var r := all[n - 1];
      if Survives(all, r) && HasKey(r, k) {
        NewSurvivor(all, n, k);
      } else {
        NoNewSurvivor(all, n, k);
      }
    }
  }

  /** A surviving row with key `k` is the first survivor with that key. */
  lemma NewSurvivor(all: seq<Row>, n: nat, k: string)
    requires 0 < n <= |all| && DistinctIds(all) && OneSurvivor(all, n - 1, k)
    requires Survives(all, all[n - 1]) && HasKey(all[n - 1], k)
    ensures OneSurvivor(all, n, k)
  {
    var p := SurvivorsOf(all, all[..n - 1]);
    var r := all[n - 1];
    SurvivorsOfSnoc(all, n);
    IdsWithKeySnoc(p, r, k);
    NoEarlierSurvivor(all, n - 1, k);
    assert IdsWithKey(p, k) == [];
    assert IdsWithKey(SurvivorsOf(all, all[..n]), k) == [all[n - 1].itemId];
  }

  /** A row that does not survive with key `k` leaves the survivors with key `k` as they were. */
  lemma NoNewSurvivor(all: seq<Row>, n: nat, k: string)
    requires 0 < n <= |all| && OneSurvivor(all, n - 1, k)
    requires !(Survives(all, all[n - 1]) && HasKey(all[n - 1], k))
    ensures OneSurvivor(all, n, k)
  {
    var p := SurvivorsOf(all, all[..n - 1]);
    var r := all[n - 1];
    SurvivorsOfSnoc(all, n);
    if Survives(all, r) {
      IdsWithKeySnoc(p, r, k);
    } else {
      assert SurvivorsOf(all, all[..n]) == p;
    }
    var s := IdsWithKey(SurvivorsOf(all, all[..n]), k);
    assert s == IdsWithKey(p, k);
    if s != [] {
      var j :| 0 <= j < n - 1 && HasKey(all[j], k) && Survives(all, all[j]) && s[0] == all[j].itemId;
      assert j < n;
    }
  }

  /**
   * Idempotence: with distinct itemIDs the survivor set has no DOI shared by
   * two rows, so resolving it again plans nothing (the resolver's plan has
   * exactly one decision per duplicate DOI).
   */
  lemma SurvivorsHaveNoDuplicates(items: seq<Row>)
    requires DistinctIds(items)
    ensures forall k :: |IdsWithKey(Survivors(items), k)| <= 1
    ensures DuplicateDois(Survivors(items)) == {}
  {
    assert items[..|items|] == items;
    forall k ensures |IdsWithKey(Survivors(items), k)| <= 1 {
      SurvivorsPrefix(items, |items|, k);
      assert OneSurvivor(items, |items|, k);
    }
  }
}
