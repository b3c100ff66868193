/**
 * The keep/delete plan computed by both duplicate resolvers: for every group
 * of more than one member, keep the lowest itemID and delete the others.
 */
module DeletionPlan {
  import opened Seqs

  /** The decision for one duplicate group: the survivor and the ids to delete. */
  datatype Deletion = Deletion(key: string, keep: int, remove: set<int>)

  /** `min(ids)`: the least member of a non-empty sequence. */
  function MinOf(ids: seq<int>): (m: int)
    requires ids != []
    ensures m in ids
    ensures forall i :: 0 <= i < |ids| ==> m <= ids[i]
  {
    if |ids| == 1 then ids[0]
    else
      var rest := MinOf(ids[1..]);
      if ids[0] <= rest then ids[0] else rest
  }

  function AsSet(ids: seq<int>): set<int> {
    set i | i in ids
  }

  /** `item_to_keep = min(ids)` and `items_to_delete = set(ids) - {item_to_keep}`. */
  function Decide(key: string, ids: seq<int>): (d: Deletion)
    requires ids != []
    ensures d.key == key && d.keep in ids
    ensures forall i :: 0 <= i < |ids| ==> d.keep <= ids[i]
    ensures d.keep !in d.remove
    ensures d.remove + {d.keep} == AsSet(ids)
    ensures |d.remove| == |AsSet(ids)| - 1
  {
    var keep := MinOf(ids);
    Deletion(key, keep, AsSet(ids) - {keep})
  }

  /** The decisions for the groups of `keys` (in that order) that have more than one member. */
  function Plans(groups: map<string, seq<int>>, keys: seq<string>): seq<Deletion>
    requires forall k <- keys :: k in groups
  {
    if keys == [] then []
    else
      var k := keys[|keys| - 1];
      Plans(groups, keys[..|keys| - 1]) + (if |groups[k]| > 1 then [Decide(k, groups[k])] else [])
  }

  /** Sum of the sizes of the delete sets. */
  function TotalRemoved(plan: seq<Deletion>): nat {
    if plan == [] then 0 else TotalRemoved(plan[..|plan| - 1]) + |plan[|plan| - 1].remove|
  }

  predicate Planned(plan: seq<Deletion>, k: string) {
    exists d <- plan :: d.key == k
  }

  /** The keys of `groups` that name a group of more than one member. */
  function DuplicateKeys(groups: map<string, seq<int>>): set<string> {
    set k | k in groups && |groups[k]| > 1
  }

  /** Every decision in the plan is the one for a key of `keys` whose group has more than one member. */
  lemma {:induction false} PlansSound(groups: map<string, seq<int>>, keys: seq<string>)
    requires forall k <- keys :: k in groups
    ensures forall d <- Plans(groups, keys) ::
              d.key in keys && |groups[d.key]| > 1 && d == Decide(d.key, groups[d.key])
  {
    if keys != [] {
      var init := keys[..|keys| - 1];
      PlansSound(groups, init);
      forall d <- Plans(groups, keys)
        ensures d.key in keys && |groups[d.key]| > 1 && d == Decide(d.key, groups[d.key])
      {
        if d in Plans(groups, init) { assert d.key in init; }
      }
    }
  }

  /** A key of `keys` is planned exactly when its group has more than one member. */
  lemma {:induction false} PlansComplete(groups: map<string, seq<int>>, keys: seq<string>)
    requires forall k <- keys :: k in groups
    ensures forall k <- keys :: Planned(Plans(groups, keys), k) <==> |groups[k]| > 1
  {
    if keys != [] {
      var k := keys[|keys| - 1];
      var init := keys[..|keys| - 1];
      PlansComplete(groups, init);
      PlansSound(groups, init);
      var p := Plans(groups, init);
      var q := Plans(groups, keys);
      forall j <- keys ensures Planned(q, j) <==> |groups[j]| > 1 {
        if j == k && |groups[k]| > 1 {
          assert q[|p|].key == k;
        } else if j == k {
          assert q == p;
        } else {
          assert j in init;
          if Planned(q, j) {
            var d :| d in q && d.key == j;
            assert d in p;
          }
          if |groups[j]| > 1 {
            var d :| d in p && d.key == j;
            assert d in q;
          }
        }
      }
    }
  }

  /** The keys of `keys` that name a group of more than one member. */
  function BigKeys(groups: map<string, seq<int>>, keys: seq<string>): set<string>
    requires forall k <- keys :: k in groups
  {
    set k | k in keys && |groups[k]| > 1
  }

  lemma BigKeysSnoc(groups: map<string, seq<int>>, keys: seq<string>)
    requires keys != [] && forall k <- keys :: k in groups
    ensures var k := keys[|keys| - 1];
      BigKeys(groups, keys) == BigKeys(groups, keys[..|keys| - 1]) + (if |groups[k]| > 1 then {k} else {})
  {
    var init := keys[..|keys| - 1];
    assert keys == init + [keys[|keys| - 1]];
  }

  /** With distinct keys there is exactly one decision per duplicate group. */
  lemma {:induction false} PlansCount(groups: map<string, seq<int>>, keys: seq<string>)
    requires forall k <- keys :: k in groups
    requires Distinct(keys)
    ensures |Plans(groups, keys)| == |BigKeys(groups, keys)|
  {
    if keys != [] {
      var k := keys[|keys| - 1];
      var init := keys[..|keys| - 1];
      assert Distinct(init) && k !in init by {
        assert forall i :: 0 <= i < |init| ==> init[i] == keys[i];
      }
      PlansCount(groups, init);
      BigKeysSnoc(groups, keys);
    }
  }

  /** One key of the planning loop keeps the plan and its counters in step. */
  lemma PlanStep(groups: map<string, seq<int>>, keys: seq<string>, i: nat,
                 plan: seq<Deletion>, totalDeleted: nat, plan': seq<Deletion>, totalDeleted': nat)
    requires i < |keys| && forall k <- keys :: k in groups
    requires plan == Plans(groups, keys[..i]) && totalDeleted == TotalRemoved(plan)
    requires var ids := groups[keys[i]];
      if |ids| > 1 then
        var keep := MinOf(ids);
        plan' == plan + [Deletion(keys[i], keep, AsSet(ids) - {keep})] && totalDeleted' == totalDeleted + |AsSet(ids) - {keep}|
      else plan' == plan && totalDeleted' == totalDeleted
    ensures plan' == Plans(groups, keys[..i + 1]) && totalDeleted' == TotalRemoved(plan')
  {
    assert keys[..i + 1][..i] == keys[..i];
    if |groups[keys[i]]| > 1 {
      assert plan'[..|plan'| - 1] == plan;
    }
  }

  /**
   * The planning loop: one decision per duplicate group, in key order, with
   * the counters `total_duplicates` and `total_deleted`.
   */
  method PlanDeletions(groups: map<string, seq<int>>, keys: seq<string>)
    returns (plan: seq<Deletion>, totalDuplicates: nat, totalDeleted: nat)
    requires Distinct(keys) && (set k | k in keys) == groups.Keys
    ensures forall d <- plan :: d.key in groups && |groups[d.key]| > 1 && d == Decide(d.key, groups[d.key])
    ensures forall k <- keys :: Planned(plan, k) <==> |groups[k]| > 1
    ensures totalDuplicates == |plan| == |DuplicateKeys(groups)|
    ensures totalDeleted == TotalRemoved(plan)
  {
    assert forall k <- keys :: k in groups;
    plan, totalDuplicates, totalDeleted := [], 0, 0;
    for i := 0 to |keys|
      invariant plan == Plans(groups, keys[..i])
      invariant totalDuplicates == |plan|
      invariant totalDeleted == TotalRemoved(plan)
    {
      var key := keys[i];
      var ids := groups[key];
      ghost var planBefore, deletedBefore := plan, totalDeleted;
      if |ids| > 1 {
        totalDuplicates := totalDuplicates + 1;
        var keep := MinOf(ids);
        var remove := AsSet(ids) - {keep};
        totalDeleted := totalDeleted + |remove|;
        plan := plan + [Deletion(key, keep, remove)];
      }
      PlanStep(groups, keys, i, planBefore, deletedBefore, plan, totalDeleted);
    }
    assert keys[..|keys|] == keys;
    PlansSound(groups, keys);
    PlansComplete(groups, keys);
    PlansCount(groups, keys);
    assert BigKeys(groups, keys) == DuplicateKeys(groups);
  }
}
