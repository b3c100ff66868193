/**
 * Fuzzy duplicate resolution by title (zotero/dedup-by-title.py): normalise
 * each title, put it in the group of the first existing key it is similar
 * to (greedy first fit, keys in insertion order), or start a new group keyed
 * by it; then plan to keep the lowest itemID of every group with more than
 * one member.
 */
module DedupByTitle {
  import opened Wrappers
  import opened Text
  import opened Seqs
  import opened DeletionPlan

  /** One row of the title query: an item and the raw value of its title field. */
  datatype Row = Row(itemId: int, title: Option<string>)

  /** A group member: the itemID and the original (unnormalised) title. */
  datatype Member = Member(itemId: int, title: string)

  /** Python truthiness of the raw title. */
  predicate HasTitle(r: Row) {
    r.title.Some? && r.title.value != ""
  }

  predicate Kept(c: char) {
    IsWordChar(c) || IsSpace(Python, c)
  }

  /** `re.sub(r'[^\w\s]', '', s)`: drop every character that is neither a word character nor whitespace. */
  function StripPunctuation(s: string): (r: string)
    ensures forall c <- r :: Kept(c) && c in s
    ensures (forall c <- s :: Kept(c)) ==> r == s
  {
    if s == [] then []
    else
      var rest := StripPunctuation(s[1..]);
      assert forall c <- s[1..] :: c in s;
      if Kept(s[0]) then [s[0]] + rest else rest
  }

  /** Punctuation is dropped character by character: on one character, kept or dropped. */
  lemma StripPunctuationChar(c: char)
    ensures StripPunctuation([c]) == if Kept(c) then [c] else []
  {
    assert [c][1..] == [];
  }

  /** Stripping distributes over concatenation. */
  lemma {:induction false} StripPunctuationConcat(a: string, b: string)
    ensures StripPunctuation(a + b) == StripPunctuation(a) + StripPunctuation(b)
  {
    if a == [] {
      assert a + b == b;
    } else {
      assert (a + b)[0] == a[0] && (a + b)[1..] == a[1..] + b;
      StripPunctuationConcat(a[1..], b);
    }
  }

  /** A character a normalised title may contain besides the single space. */
  predicate NormalChar(c: char) {
    IsWordChar(c) && !IsUpper(c)
  }

  /**
   * The shape `normalize_title` produces: lower-case word characters separated
   * by single spaces, with no space at either end.
   */
  predicate IsNormalized(t: string) {
    && (forall i :: 0 <= i < |t| ==> t[i] == ' ' || NormalChar(t[i]))
    && (t != "" ==> t[0] != ' ' && t[|t| - 1] != ' ')
    && (forall i :: 0 <= i < |t| - 1 ==> t[i] == ' ' ==> t[i + 1] != ' ')
  }

  /** `' '.join(re.sub(r'[^\w\s]', '', title.lower()).split())` */
  function NormalizeTitle(title: string): string {
    Join(Split(Python, StripPunctuation(Lower(title))), " ")
  }

  /** A non-empty run of normal characters. */
  predicate IsWord(w: string) {
    w != "" && forall i :: 0 <= i < |w| ==> NormalChar(w[i])
  }

  /** Joining non-empty runs of normal characters with single spaces gives a normalised string. */
  lemma {:induction false} JoinWordsIsNormalized(words: seq<string>)
    requires forall i :: 0 <= i < |words| ==> IsWord(words[i])
    ensures IsNormalized(Join(words, " "))
    ensures words != [] ==> Join(words, " ") != "" && Join(words, " ")[0] == words[0][0]
  {
    if |words| > 1 {
      var w := words[0];
      assert IsWord(w);
      var rest := words[1..];
      assert forall i :: 0 <= i < |rest| ==> rest[i] == words[i + 1];
      JoinWordsIsNormalized(rest);
      var j := Join(rest, " ");
      var t := w + " " + j;
      assert t == Join(words, " ");
      assert j != "" && j[0] != ' ';
      forall i | 0 <= i < |t| - 1 && t[i] == ' ' ensures t[i + 1] != ' ' {
        if i > |w| {
          assert t[i] == j[i - |w| - 1] && t[i + 1] == j[i - |w|];
        }
      }
      forall i | 0 <= i < |t| ensures t[i] == ' ' || NormalChar(t[i]) {
        if i < |w| {
          assert t[i] == w[i];
        } else if i > |w| {
          assert t[i] == j[i - |w| - 1];
        }
      }
      assert t[|t| - 1] == j[|j| - 1];
    } else if |words| == 1 {
      assert IsWord(words[0]);
    }
  }

  /** The output of `normalize_title` is lower-case, holds only word characters and single spaces, and is stripped. */
  lemma NormalizeTitleIsNormalized(title: string)
    ensures IsNormalized(NormalizeTitle(title))
  {
    var lowered := Lower(title);
    var kept := StripPunctuation(lowered);
    var words := Split(Python, kept);
    forall i | 0 <= i < |words| ensures IsWord(words[i]) {
      var w := words[i];
      assert w in words;
      forall k | 0 <= k < |w| ensures NormalChar(w[k]) {
        var c := w[k];
        assert c in w;
        assert c in kept && !IsSpace(Python, c);
        assert Kept(c) && c in lowered;
      }
    }
    JoinWordsIsNormalized(words);
  }

  /** Splitting a normalised string at its spaces and joining it back gives it unchanged. */
  lemma {:induction false} JoinSplitNormalized(t: string)
    requires IsNormalized(t)
    ensures Join(Split(Python, t), " ") == t
    decreases |t|
  {
    if t != [] {
      var n := WordLength(Python, t);
      assert !IsSpace(Python, t[0]);
      if n == |t| {
        assert t[n..] == [] && t[..n] == t;
        assert Split(Python, t) == [t[..n]] + Split(Python, t[n..]);
      } else {
        var rest := t[n + 1..];
        NormalizedTail(t, n);
        JoinSplitNormalized(rest);
        SplitAfterWord(t, n);
        var parts := Split(Python, t);
        assert parts[1..] == Split(Python, rest);
        assert Join(parts, " ") == t[..n] + " " + Join(Split(Python, rest), " ");
        SplitAt(t, n);
      }
    }
  }

  /** What follows the first space of a normalised string is normalised and starts a word. */
  lemma NormalizedTail(t: string, n: nat)
    requires IsNormalized(t) && n < |t| && n == WordLength(Python, t)
    ensures t[n] == ' '
    ensures IsNormalized(t[n + 1..]) && t[n + 1..] != [] && !IsSpace(Python, t[n + 1])
  {
    var rest := t[n + 1..];
    assert rest != [] && rest[0] != ' ';
    forall i | 0 <= i < |rest| ensures rest[i] == ' ' || NormalChar(rest[i]) {
      assert rest[i] == t[n + 1 + i];
    }
    forall i | 0 <= i < |rest| - 1 && rest[i] == ' ' ensures rest[i + 1] != ' ' {
      assert rest[i] == t[n + 1 + i] && rest[i + 1] == t[n + 2 + i];
    }
  }

  /** A word followed by one space and a non-space splits into the word and the splitting of the rest. */
  lemma SplitAfterWord(t: string, n: nat)
    requires 0 < n < |t| - 1 && n == WordLength(Python, t) && t[n] == ' ' && !IsSpace(Python, t[n + 1])
    ensures Split(Python, t) == [t[..n]] + Split(Python, t[n + 1..])
    ensures Split(Python, t[n + 1..]) != []
  {
    assert t[n..][1..] == t[n + 1..];
    assert Split(Python, t[n..]) == Split(Python, t[n + 1..]);
  }

  /** A normalised title is its own normalisation. */
  lemma NormalizedIsFixpoint(t: string)
    requires IsNormalized(t)
    ensures NormalizeTitle(t) == t
  {
    LowerOfLower(t);
    assert forall c <- t :: Kept(c);
    JoinSplitNormalized(t);
  }

  /** `normalize_title` is idempotent. */
  lemma NormalizeTitleIdempotent(title: string)
    ensures NormalizeTitle(NormalizeTitle(title)) == NormalizeTitle(title)
  {
    NormalizeTitleIsNormalized(title);
    NormalizedIsFixpoint(NormalizeTitle(title));
  }

  /** The default threshold of `similar`. */
  const Threshold: real := 0.9

  /**
   * `similar(a, b)`: `SequenceMatcher(None, a, b).ratio() > threshold`. The
   * ratio itself is a library routine, passed in as `ratio`.
   */
  predicate Similar(ratio: (string, string) -> real, a: string, b: string) {
    ratio(a, b) > Threshold
  }

  /** `SequenceMatcher` gives ratio 1.0 for two identical strings (two empty strings included). */
  ghost predicate IdenticalRatioIsOne(ratio: (string, string) -> real) {
    forall s :: ratio(s, s) == 1.0
  }

  /** The index of the first key that `t` is similar to, or `|keys|` when there is none. */
  function FirstSimilar(ratio: (string, string) -> real, keys: seq<string>, t: string): (n: nat)
    ensures n <= |keys|
    ensures forall j :: 0 <= j < n ==> !Similar(ratio, keys[j], t)
    ensures n < |keys| ==> Similar(ratio, keys[n], t)
  {
    if keys == [] then 0
    else if Similar(ratio, keys[0], t) then 0
    else 1 + FirstSimilar(ratio, keys[1..], t)
  }

  /** Adding keys after the first similar one does not change which key is first. */
  lemma FirstSimilarExtend(ratio: (string, string) -> real, keys: seq<string>, extra: seq<string>, t: string)
    requires FirstSimilar(ratio, keys, t) < |keys|
    ensures FirstSimilar(ratio, keys + extra, t) == FirstSimilar(ratio, keys, t)
  {
    var n := FirstSimilar(ratio, keys, t);
    var m := FirstSimilar(ratio, keys + extra, t);
    assert (keys + extra)[n] == keys[n];
    if m < n {
      assert (keys + extra)[m] == keys[m];
    }
  }

  function NormalizedTitleOf(norm: string -> string, r: Row): string
    requires HasTitle(r)
  {
    norm(r.title.value)
  }

  /** Every row with a title is similar to some key of `keys`. */
  predicate Covered(ratio: (string, string) -> real, norm: string -> string, keys: seq<string>, rows: seq<Row>) {
    forall m :: 0 <= m < |rows| && HasTitle(rows[m]) ==> FirstSimilar(ratio, keys, NormalizedTitleOf(norm, rows[m])) < |keys|
  }

  /** Reference: the number of rows with a non-empty title. */
  function CountWithTitle(items: seq<Row>): nat {
    if items == [] then 0
    else CountWithTitle(items[..|items| - 1]) + (if HasTitle(items[|items| - 1]) then 1 else 0)
  }

  /**
   * Reference: the members of group `j` — the rows with a title whose first
   * similar key is `keys[j]`, in input order.
   */
  function MembersAt(ratio: (string, string) -> real, norm: string -> string, keys: seq<string>, items: seq<Row>, j: nat): seq<Member> {
    if items == [] then []
    else
      var r := items[|items| - 1];
      MembersAt(ratio, norm, keys, items[..|items| - 1], j)
        + (if HasTitle(r) && FirstSimilar(ratio, keys, NormalizedTitleOf(norm, r)) == j then [Member(r.itemId, r.title.value)] else [])
  }

  lemma MembersAtSnoc(ratio: (string, string) -> real, norm: string -> string, keys: seq<string>, items: seq<Row>, r: Row, j: nat)
    ensures MembersAt(ratio, norm, keys, items + [r], j)
            == MembersAt(ratio, norm, keys, items, j)
               + (if HasTitle(r) && FirstSimilar(ratio, keys, NormalizedTitleOf(norm, r)) == j then [Member(r.itemId, r.title.value)] else [])
  {
    assert (items + [r])[..|items|] == items;
  }

  /** Adding keys does not move the rows already covered. */
  lemma {:induction false} MembersAtExtend(ratio: (string, string) -> real, norm: string -> string, keys: seq<string>, extra: seq<string>, items: seq<Row>, j: nat)
    requires Covered(ratio, norm, keys, items)
    ensures MembersAt(ratio, norm, keys + extra, items, j) == MembersAt(ratio, norm, keys, items, j)
    ensures j >= |keys| ==> MembersAt(ratio, norm, keys, items, j) == []
  {
    if items != [] {
      var init := items[..|items| - 1];
      var r := items[|items| - 1];
      assert Covered(ratio, norm, keys, init) by {
        forall m | 0 <= m < |init| && HasTitle(init[m])
          ensures FirstSimilar(ratio, keys, NormalizedTitleOf(norm, init[m])) < |keys|
        {
          assert init[m] == items[m];
        }
      }
      MembersAtExtend(ratio, norm, keys, extra, init, j);
      if HasTitle(r) {
        assert r == items[|items| - 1];
        FirstSimilarExtend(ratio, keys, extra, NormalizedTitleOf(norm, r));
      }
    }
  }

  /** Sum of the sizes of groups 0 .. n-1. */
  function SumMembers(ratio: (string, string) -> real, norm: string -> string, keys: seq<string>, items: seq<Row>, n: nat): nat {
    if n == 0 then 0 else SumMembers(ratio, norm, keys, items, n - 1) + |MembersAt(ratio, norm, keys, items, n - 1)|
  }

  lemma {:induction false} SumMembersSnoc(ratio: (string, string) -> real, norm: string -> string, keys: seq<string>, items: seq<Row>, r: Row, n: nat)
    ensures SumMembers(ratio, norm, keys, items + [r], n)
            == SumMembers(ratio, norm, keys, items, n) + (if HasTitle(r) && FirstSimilar(ratio, keys, NormalizedTitleOf(norm, r)) < n then 1 else 0)
  {
    assert (items + [r])[..|items + [r]| - 1] == items;
    if n > 0 {
      SumMembersSnoc(ratio, norm, keys, items, r, n - 1);
    }
  }

  lemma {:induction false} SumMembersEmpty(ratio: (string, string) -> real, norm: string -> string, keys: seq<string>, n: nat)
    ensures SumMembers(ratio, norm, keys, [], n) == 0
  {
    if n > 0 {
      SumMembersEmpty(ratio, norm, keys, n - 1);
    }
  }

  /**
   * Groups partition the rows with a title: when every such row is similar to
   * some key, the group sizes add up to the number of those rows.
   */
  lemma {:induction false} GroupsPartitionRows(ratio: (string, string) -> real, norm: string -> string, keys: seq<string>, items: seq<Row>)
    requires Covered(ratio, norm, keys, items)
    ensures SumMembers(ratio, norm, keys, items, |keys|) == CountWithTitle(items)
  {
    if items == [] {
      SumMembersEmpty(ratio, norm, keys, |keys|);
    } else {
      var init := items[..|items| - 1];
      var r := items[|items| - 1];
      assert items == init + [r];
      assert Covered(ratio, norm, keys, init) by {
        forall m | 0 <= m < |init| && HasTitle(init[m])
          ensures FirstSimilar(ratio, keys, NormalizedTitleOf(norm, init[m])) < |keys|
        {
          assert init[m] == items[m];
        }
      }
      GroupsPartitionRows(ratio, norm, keys, init);
      SumMembersSnoc(ratio, norm, keys, init, r, |keys|);
    }
  }

  /** Every key is dissimilar to all keys inserted before it. */
  predicate KeysDissimilar(ratio: (string, string) -> real, keys: seq<string>) {
    forall a, b :: 0 <= a < b < |keys| ==> !Similar(ratio, keys[a], keys[b])
  }

  /**
   * Reference: the group keys the greedy first fit creates over `items`, in
   * insertion order. A row with a title adds its normalised title when no
   * earlier key is similar to it and it is not a key already.
   */
  function GreedyKeys(ratio: (string, string) -> real, norm: string -> string, items: seq<Row>): seq<string> {
    if items == [] then []
    else
      var ks := GreedyKeys(ratio, norm, items[..|items| - 1]);
      var r := items[|items| - 1];
      if HasTitle(r) && FirstSimilar(ratio, ks, NormalizedTitleOf(norm, r)) == |ks| && NormalizedTitleOf(norm, r) !in ks
      then ks + [NormalizedTitleOf(norm, r)]
      else ks
  }

  lemma GreedyKeysSnoc(ratio: (string, string) -> real, norm: string -> string, items: seq<Row>, r: Row)
    ensures var ks := GreedyKeys(ratio, norm, items);
      GreedyKeys(ratio, norm, items + [r])
      == if HasTitle(r) && FirstSimilar(ratio, ks, NormalizedTitleOf(norm, r)) == |ks| && NormalizedTitleOf(norm, r) !in ks
         then ks + [NormalizedTitleOf(norm, r)]
         else ks
  {
    assert (items + [r])[..|items|] == items;
  }

  /** What the grouping loop keeps true of the groups built from `rows`. */
  ghost predicate GroupingInv(ratio: (string, string) -> real, norm: string -> string, groups: map<string, seq<Member>>, keys: seq<string>, rows: seq<Row>) {
    && Distinct(keys) && (set k | k in keys) == groups.Keys
    && KeysDissimilar(ratio, keys)
    && Covered(ratio, norm, keys, rows)
    && (forall j :: 0 <= j < |keys| ==> groups[keys[j]] == MembersAt(ratio, norm, keys, rows, j))
    && (forall j :: 0 <= j < |keys| ==> groups[keys[j]] != [] && norm(groups[keys[j]][0].title) == keys[j])
  }

  /**
   * `groups'` and `keys'` are `groups` and `keys` after `member`, whose
   * normalised title is `t`, joined the group of the first key similar to
   * `t`, or started a group of its own when there is none.
   */
  predicate Placed(ratio: (string, string) -> real, groups: map<string, seq<Member>>, keys: seq<string>,
                   t: string, member: Member, groups': map<string, seq<Member>>, keys': seq<string>)
    requires (set k | k in keys) == groups.Keys
  {
    var j := FirstSimilar(ratio, keys, t);
    if j < |keys| then
      groups' == groups[keys[j] := groups[keys[j]] + [member]] && keys' == keys
    else
      groups' == groups[t := [member]] && keys' == (if t in groups then keys else keys + [t])
  }

  /**
   * The inner loop for one titled row: append `member` to the group of the
   * first key similar to `normalizedTitle`, or, when there is none, start a
   * group of its own under `normalizedTitle`. `keys` lists the group keys in
   * insertion order, the order in which the dictionary iterates.
   */
  method PlaceTitle(ratio: (string, string) -> real, groups: map<string, seq<Member>>, keys: seq<string>,
                    normalizedTitle: string, member: Member)
    returns (groups': map<string, seq<Member>>, keys': seq<string>)
    requires (set k | k in keys) == groups.Keys
    ensures Placed(ratio, groups, keys, normalizedTitle, member, groups', keys')
  {
    groups', keys' := groups, keys;
    var found := false;
    var j := 0;
    while j < |keys|
      invariant j <= |keys|
      invariant forall m :: 0 <= m < j ==> !Similar(ratio, keys[m], normalizedTitle)
      invariant !found && groups' == groups
    {
      if Similar(ratio, keys[j], normalizedTitle) {
        groups' := groups'[keys[j] := groups'[keys[j]] + [member]];
        found := true;
        break;
      }
      j := j + 1;
    }
    if !found {
      if normalizedTitle !in groups' {
        keys' := keys' + [normalizedTitle];
      }
      groups' := groups'[normalizedTitle := [member]];
    }
  }

  /**
   * The grouping loop. The result is the greedy first fit: the keys are
   * `GreedyKeys`, in the order the loop inserts them into the dictionary,
   * every key is dissimilar to the keys before it,
   * every row with a title is in the group of the FIRST key it is similar to,
   * and a key is the normalisation of its group's first member.
   */
  method GroupTitles(items: seq<Row>, ratio: (string, string) -> real)
    returns (groups: map<string, seq<Member>>, keys: seq<string>, itemsProcessed: nat)
    requires IdenticalRatioIsOne(ratio)
    ensures itemsProcessed == CountWithTitle(items)
    ensures Distinct(keys) && (set k | k in keys) == groups.Keys
    ensures KeysDissimilar(ratio, keys)
    ensures Covered(ratio, NormalizeTitle, keys, items)
    ensures forall j :: 0 <= j < |keys| ==> groups[keys[j]] == MembersAt(ratio, NormalizeTitle, keys, items, j)
    ensures forall j :: 0 <= j < |keys| ==>
              groups[keys[j]] != [] && NormalizeTitle(groups[keys[j]][0].title) == keys[j]
    ensures keys == GreedyKeys(ratio, NormalizeTitle, items)
  {
    groups, keys, itemsProcessed := map[], [], 0;
    for i := 0 to |items|
      invariant itemsProcessed == CountWithTitle(items[..i])
      invariant GroupingInv(ratio, NormalizeTitle, groups, keys, items[..i])
      invariant keys == GreedyKeys(ratio, NormalizeTitle, items[..i])
    {
      var r := items[i];
      ghost var before, keysBefore, countBefore := groups, keys, itemsProcessed;
      if r.title.Some? && r.title.value != "" {
        itemsProcessed := itemsProcessed + 1;
        var normalizedTitle := NormalizeTitle(r.title.value);
        groups, keys := PlaceTitle(ratio, groups, keys, normalizedTitle, Member(r.itemId, r.title.value));
      }
      GroupStep(ratio, NormalizeTitle, items, i, before, keysBefore, countBefore, groups, keys, itemsProcessed);
    }
    assert items[..|items|] == items;
  }

  /** One iteration of the grouping loop keeps the invariant and the count. */
  lemma GroupStep(ratio: (string, string) -> real, norm: string -> string, items: seq<Row>, i: nat,
                  groups: map<string, seq<Member>>, keys: seq<string>, count: nat,
                  groups': map<string, seq<Member>>, keys': seq<string>, count': nat)
    requires IdenticalRatioIsOne(ratio) && i < |items|
    requires count == CountWithTitle(items[..i]) && GroupingInv(ratio, norm, groups, keys, items[..i])
    requires HasTitle(items[i]) ==>
      count' == count + 1 &&
      Placed(ratio, groups, keys, NormalizedTitleOf(norm, items[i]), Member(items[i].itemId, items[i].title.value), groups', keys')
    requires !HasTitle(items[i]) ==> count' == count && groups' == groups && keys' == keys
    requires keys == GreedyKeys(ratio, norm, items[..i])
    ensures count' == CountWithTitle(items[..i + 1]) && GroupingInv(ratio, norm, groups', keys', items[..i + 1])
    ensures keys' == GreedyKeys(ratio, norm, items[..i + 1])
  {
    var prefix, r := items[..i], items[i];
    assert items[..i + 1] == prefix + [r];
    assert (prefix + [r])[..|prefix + [r]| - 1] == prefix;
    GreedyKeysSnoc(ratio, norm, prefix, r);
    if HasTitle(r) {
      var j := FirstSimilar(ratio, keys, NormalizedTitleOf(norm, r));
      if j < |keys| {
        JoinStep(ratio, norm, groups, keys, prefix, r, j);
      } else {
        NewStep(ratio, norm, groups, keys, prefix, r);
      }
    } else {
      SkipStep(ratio, norm, groups, keys, prefix, r);
    }
  }

  /** A row without a title changes nothing. */
  lemma SkipStep(ratio: (string, string) -> real, norm: string -> string, groups: map<string, seq<Member>>, keys: seq<string>, prefix: seq<Row>, r: Row)
    requires GroupingInv(ratio, norm, groups, keys, prefix) && !HasTitle(r)
    ensures GroupingInv(ratio, norm, groups, keys, prefix + [r])
  {
    assert (prefix + [r])[..|prefix + [r]| - 1] == prefix;
    CoveredSnoc(ratio, norm, keys, prefix, r);
  }

  lemma CoveredSnoc(ratio: (string, string) -> real, norm: string -> string, keys: seq<string>, prefix: seq<Row>, r: Row)
    requires Covered(ratio, norm, keys, prefix)
    requires HasTitle(r) ==> FirstSimilar(ratio, keys, NormalizedTitleOf(norm, r)) < |keys|
    ensures Covered(ratio, norm, keys, prefix + [r])
  {
    forall m | 0 <= m < |prefix + [r]| && HasTitle((prefix + [r])[m])
      ensures FirstSimilar(ratio, keys, NormalizedTitleOf(norm, (prefix + [r])[m])) < |keys|
    {
      if m < |prefix| {
        assert (prefix + [r])[m] == prefix[m];
      }
    }
  }

  /** A title whose first similar key is `keys[j]` joins group `j` and no other. */
  lemma JoinStep(ratio: (string, string) -> real, norm: string -> string, groups: map<string, seq<Member>>, keys: seq<string>, prefix: seq<Row>, r: Row, j: nat)
    requires GroupingInv(ratio, norm, groups, keys, prefix) && HasTitle(r) && j < |keys|
    requires forall m :: 0 <= m < j ==> !Similar(ratio, keys[m], NormalizedTitleOf(norm, r))
    requires Similar(ratio, keys[j], NormalizedTitleOf(norm, r))
    ensures GroupingInv(ratio, norm, groups[keys[j] := groups[keys[j]] + [Member(r.itemId, r.title.value)]], keys, prefix + [r])
  {
    assert FirstSimilar(ratio, keys, NormalizedTitleOf(norm, r)) == j;
    CoveredSnoc(ratio, norm, keys, prefix, r);
    JoinStepMembers(ratio, norm, groups, keys, prefix, r, j);
    JoinStepFirst(norm, groups, keys, j, Member(r.itemId, r.title.value));
  }

  lemma JoinStepFirst(norm: string -> string, groups: map<string, seq<Member>>, keys: seq<string>, j: nat, member: Member)
    requires (set k | k in keys) == groups.Keys && j < |keys|
    requires forall m :: 0 <= m < |keys| ==> groups[keys[m]] != [] && norm(groups[keys[m]][0].title) == keys[m]
    ensures (set k | k in keys) == groups[keys[j] := groups[keys[j]] + [member]].Keys
    ensures forall m :: 0 <= m < |keys| ==>
      var g := groups[keys[j] := groups[keys[j]] + [member]];
      g[keys[m]] != [] && norm(g[keys[m]][0].title) == keys[m]
  {
    var g: map<string, seq<Member>> := groups[keys[j] := groups[keys[j]] + [member]];
    assert keys[j] in groups;
    forall m | 0 <= m < |keys| ensures g[keys[m]] != [] && norm(g[keys[m]][0].title) == keys[m] {
      if keys[m] == keys[j] {
        assert g[keys[m]][0] == groups[keys[j]][0];
      }
    }
  }

  lemma JoinStepMembers(ratio: (string, string) -> real, norm: string -> string, groups: map<string, seq<Member>>, keys: seq<string>, prefix: seq<Row>, r: Row, j: nat)
    requires Distinct(keys) && (set k | k in keys) == groups.Keys
    requires forall m :: 0 <= m < |keys| ==> groups[keys[m]] == MembersAt(ratio, norm, keys, prefix, m)
    requires HasTitle(r) && j < |keys| && FirstSimilar(ratio, keys, NormalizedTitleOf(norm, r)) == j
    ensures forall m :: 0 <= m < |keys| ==>
      groups[keys[j] := groups[keys[j]] + [Member(r.itemId, r.title.value)]][keys[m]] == MembersAt(ratio, norm, keys, prefix + [r], m)
  {
    assert (prefix + [r])[..|prefix + [r]| - 1] == prefix;
    var g := groups[keys[j] := groups[keys[j]] + [Member(r.itemId, r.title.value)]];
    forall m | 0 <= m < |keys| ensures g[keys[m]] == MembersAt(ratio, norm, keys, prefix + [r], m) {
      if m != j { assert keys[m] != keys[j]; }
    }
  }

  /** A title similar to no key starts a new group of its own; the other groups are kept. */
  lemma NewStep(ratio: (string, string) -> real, norm: string -> string, groups: map<string, seq<Member>>, keys: seq<string>, prefix: seq<Row>, r: Row)
    requires IdenticalRatioIsOne(ratio)
    requires GroupingInv(ratio, norm, groups, keys, prefix) && HasTitle(r)
    requires forall m :: 0 <= m < |keys| ==> !Similar(ratio, keys[m], NormalizedTitleOf(norm, r))
    ensures NormalizedTitleOf(norm, r) !in groups
    ensures GroupingInv(ratio, norm, groups[NormalizedTitleOf(norm, r) := [Member(r.itemId, r.title.value)]],
                        keys + [NormalizedTitleOf(norm, r)], prefix + [r])
  {
    var t := NormalizedTitleOf(norm, r);
    assert ratio(t, t) == 1.0;
    assert t !in keys;
    NewKeyIsFirst(ratio, keys, t);
    NewStepMembers(ratio, norm, groups, keys, prefix, r);
    NewStepKeys(ratio, norm, groups, keys, t, Member(r.itemId, r.title.value));
    assert (prefix + [r])[..|prefix + [r]| - 1] == prefix;
    CoveredExtend(ratio, norm, keys, [t], prefix);
    CoveredSnoc(ratio, norm, keys + [t], prefix, r);
  }

  lemma NewStepMembers(ratio: (string, string) -> real, norm: string -> string, groups: map<string, seq<Member>>, keys: seq<string>, prefix: seq<Row>, r: Row)
    requires GroupingInv(ratio, norm, groups, keys, prefix) && HasTitle(r)
    requires NormalizedTitleOf(norm, r) !in keys
    requires FirstSimilar(ratio, keys + [NormalizedTitleOf(norm, r)], NormalizedTitleOf(norm, r)) == |keys|
    ensures var keys' := keys + [NormalizedTitleOf(norm, r)];
            var g := groups[NormalizedTitleOf(norm, r) := [Member(r.itemId, r.title.value)]];
            forall m :: 0 <= m < |keys'| ==> g[keys'[m]] == MembersAt(ratio, norm, keys', prefix + [r], m)
  {
    var t := NormalizedTitleOf(norm, r);
    var keys' := keys + [t];
    var g := groups[t := [Member(r.itemId, r.title.value)]];
    assert (prefix + [r])[..|prefix + [r]| - 1] == prefix;
    forall m | 0 <= m < |keys'| ensures g[keys'[m]] == MembersAt(ratio, norm, keys', prefix + [r], m) {
      MembersAtExtend(ratio, norm, keys, [t], prefix, m);
      if m < |keys| {
        assert keys'[m] == keys[m] != t;
      }
    }
  }

  lemma NewStepKeys(ratio: (string, string) -> real, norm: string -> string, groups: map<string, seq<Member>>, keys: seq<string>, t: string, m0: Member)
    requires Distinct(keys) && (set k | k in keys) == groups.Keys
    requires KeysDissimilar(ratio, keys)
    requires forall j :: 0 <= j < |keys| ==> groups[keys[j]] != [] && norm(groups[keys[j]][0].title) == keys[j]
    requires t !in keys && norm(m0.title) == t
    requires forall m :: 0 <= m < |keys| ==> !Similar(ratio, keys[m], t)
    ensures var keys' := keys + [t];
            var g := groups[t := [m0]];
            && Distinct(keys') && (set k | k in keys') == g.Keys
            && KeysDissimilar(ratio, keys')
            && (forall j :: 0 <= j < |keys'| ==> g[keys'[j]] != [] && norm(g[keys'[j]][0].title) == keys'[j])
  {
    NewKeyDistinct(keys, t);
    NewKeyDissimilar(ratio, keys, t);
    NewKeyFirstMember(norm, groups, keys, t, m0);
  }

  lemma NewKeyDistinct<T>(keys: seq<T>, t: T)
    requires Distinct(keys) && t !in keys
    ensures Distinct(keys + [t])
    ensures (set k | k in keys + [t]) == (set k | k in keys) + {t}
  {
  }

  lemma NewKeyDissimilar(ratio: (string, string) -> real, keys: seq<string>, t: string)
    requires KeysDissimilar(ratio, keys)
    requires forall m :: 0 <= m < |keys| ==> !Similar(ratio, keys[m], t)
    ensures KeysDissimilar(ratio, keys + [t])
  {
    var keys' := keys + [t];
    forall a, b | 0 <= a < b < |keys'| ensures !Similar(ratio, keys'[a], keys'[b]) {
      if b < |keys| { assert keys'[a] == keys[a] && keys'[b] == keys[b]; }
    }
  }

  lemma NewKeyFirstMember(norm: string -> string, groups: map<string, seq<Member>>, keys: seq<string>, t: string, m0: Member)
    requires (set k | k in keys) == groups.Keys
    requires forall j :: 0 <= j < |keys| ==> groups[keys[j]] != [] && norm(groups[keys[j]][0].title) == keys[j]
    requires t !in keys && norm(m0.title) == t
    ensures forall j :: 0 <= j < |keys| + 1 ==>
      var g := groups[t := [m0]];
      g[(keys + [t])[j]] != [] && norm(g[(keys + [t])[j]][0].title) == (keys + [t])[j]
  {
    var keys' := keys + [t];
    var g: map<string, seq<Member>> := groups[t := [m0]];
    forall j | 0 <= j < |keys'| ensures g[keys'[j]] != [] && norm(g[keys'[j]][0].title) == keys'[j] {
      if j < |keys| {
        assert keys'[j] == keys[j] != t;
      }
    }
  }

  /** A title similar to no existing key is first similar to itself once appended. */
  lemma NewKeyIsFirst(ratio: (string, string) -> real, keys: seq<string>, t: string)
    requires ratio(t, t) == 1.0
    requires forall m :: 0 <= m < |keys| ==> !Similar(ratio, keys[m], t)
    ensures FirstSimilar(ratio, keys + [t], t) == |keys|
  {
    assert (keys + [t])[|keys|] == t;
  }

  lemma CoveredExtend(ratio: (string, string) -> real, norm: string -> string, keys: seq<string>, extra: seq<string>, rows: seq<Row>)
    requires Covered(ratio, norm, keys, rows)
    ensures Covered(ratio, norm, keys + extra, rows)
  {
    forall m | 0 <= m < |rows| && HasTitle(rows[m])
      ensures FirstSimilar(ratio, keys + extra, NormalizedTitleOf(norm, rows[m])) < |keys + extra|
    {
      FirstSimilarExtend(ratio, keys, extra, NormalizedTitleOf(norm, rows[m]));
    }
  }

  function MemberIds(members: seq<Member>): (ids: seq<int>)
    ensures |ids| == |members|
    ensures forall i :: 0 <= i < |members| ==> ids[i] == members[i].itemId
  {
    seq(|members|, i requires 0 <= i < |members| => members[i].itemId)
  }

  /** The groups with each member replaced by its itemID. */
  function IdGroups(groups: map<string, seq<Member>>): (g: map<string, seq<int>>)
    ensures g.Keys == groups.Keys
    ensures forall k <- g.Keys :: g[k] == MemberIds(groups[k])
  {
    map k | k in groups :: MemberIds(groups[k])
  }

  /**
   * The planning loop: for every group of more than one member, keep the
   * member with the lowest itemID and delete the other member ids.
   */
  method PlanTitleDeletions(groups: map<string, seq<Member>>, keys: seq<string>)
    returns (plan: seq<Deletion>, totalDuplicates: nat, totalDeleted: nat)
    requires Distinct(keys) && (set k | k in keys) == groups.Keys
    ensures forall d <- plan ::
              d.key in groups && |groups[d.key]| > 1 && d == Decide(d.key, MemberIds(groups[d.key]))
    ensures forall k <- keys :: Planned(plan, k) <==> |groups[k]| > 1
    ensures totalDuplicates == |plan| == |set k | k in groups && |groups[k]| > 1|
    ensures totalDeleted == TotalRemoved(plan)
  {
    plan, totalDuplicates, totalDeleted := PlanDeletions(IdGroups(groups), keys);
    DuplicateKeysOfIdGroups(groups);
  }

  /** Replacing members by their ids keeps the groups of more than one member. */
  lemma DuplicateKeysOfIdGroups(groups: map<string, seq<Member>>)
    ensures DuplicateKeys(IdGroups(groups)) == set k | k in groups && |groups[k]| > 1
  {
  }

  /** The fuzzy example: two spellings of one title and an unrelated one. */
  const TitleA := "Deep Knowledge Tracing"
  const TitleB := "deep knowledge tracing."
  const TitleC := "Unrelated Study"
  const FuzzyRows := [Row(1, Some(TitleA)), Row(2, Some(TitleB)), Row(3, Some(TitleC))]

  /** Normalisation ignores case. */
  lemma NormalizeTitleLower(s: string)
    ensures NormalizeTitle(Lower(s)) == NormalizeTitle(s)
  {
    LowerOfLower(Lower(s));
  }

  /** Normalisation ignores a trailing punctuation mark. */
  lemma NormalizeTitleTrailingMark(s: string, p: char)
    requires !Kept(p)
    ensures NormalizeTitle(s + [p]) == NormalizeTitle(s)
  {
    var l := Lower(s + [p]);
    assert l == Lower(s) + [p] by {
      assert !IsUpper(p);
      assert forall i :: 0 <= i < |s| ==> l[i] == LowerChar(s[i]) == Lower(s)[i];
      assert l[|s|] == LowerChar(p) == p;
    }
    StripPunctuationConcat(Lower(s), [p]);
    StripPunctuationChar(p);
    assert StripPunctuation([p]) == [];
    assert StripPunctuation(Lower(s) + [p]) == StripPunctuation(Lower(s));
    assert StripPunctuation(l) == StripPunctuation(Lower(s));
    assert NormalizeTitle(s + [p]) == Join(Split(Python, StripPunctuation(l)), " ");
  }

  /** Case and the trailing full stop disappear under normalisation. */
  lemma FuzzyTitlesNormalizeAlike()
    ensures NormalizeTitle(TitleA) == NormalizeTitle(TitleB)
  {
    assert TitleB == Lower(TitleA) + ['.'];
    NormalizeTitleTrailingMark(Lower(TitleA), '.');
    NormalizeTitleLower(TitleA);
  }

  /** Ratio 1.0 on equal strings decides the first-fit index of the three titles against `[a, c]`. */
  lemma GreedyTraceKeys(ratio: (string, string) -> real, a: string, c: string)
    requires IdenticalRatioIsOne(ratio) && !Similar(ratio, a, c)
    ensures FirstSimilar(ratio, [a], a) == 0 && FirstSimilar(ratio, [a], c) == 1
    ensures FirstSimilar(ratio, [a, c], a) == 0 && FirstSimilar(ratio, [a, c], c) == 1
    ensures KeysDissimilar(ratio, [a, c])
  {
    assert ratio(a, a) == 1.0 && ratio(c, c) == 1.0;
    assert [a, c][1..] == [c] && [a][1..] == [];
  }

  /**
   * The greedy trace on three titles where the first two normalise alike and
   * the third is dissimilar to them: the first title opens a group, the
   * second is similar to it (ratio 1.0 on equal strings) and joins it, and
   * the third opens its own group. Keyed this way the two groups hold exactly
   * those rows.
   */
  lemma GreedyTrace(ratio: (string, string) -> real, norm: string -> string, x: string, y: string, z: string)
    requires IdenticalRatioIsOne(ratio)
    requires x != "" && y != "" && z != ""
    requires norm(x) == norm(y) && !Similar(ratio, norm(x), norm(z))
    ensures var keys, rows := [norm(x), norm(z)], [Row(1, Some(x)), Row(2, Some(y)), Row(3, Some(z))];
      && Covered(ratio, norm, keys, rows)
      && MembersAt(ratio, norm, keys, rows, 0) == [Member(1, x), Member(2, y)]
      && MembersAt(ratio, norm, keys, rows, 1) == [Member(3, z)]
  {
    var a, c := norm(x), norm(z);
    var keys := [a, c];
    GreedyTraceKeys(ratio, a, c);
    var r0, r1, r2 := Row(1, Some(x)), Row(2, Some(y)), Row(3, Some(z));
    assert [r0] == [] + [r0] && [r0, r1] == [r0] + [r1] && [r0, r1, r2] == [r0, r1] + [r2];
    assert NormalizedTitleOf(norm, r0) == a && NormalizedTitleOf(norm, r1) == a && NormalizedTitleOf(norm, r2) == c;
    MembersAtSnoc(ratio, norm, keys, [], r0, 0);
    MembersAtSnoc(ratio, norm, keys, [r0], r1, 0);
    MembersAtSnoc(ratio, norm, keys, [r0, r1], r2, 0);
    MembersAtSnoc(ratio, norm, keys, [], r0, 1);
    MembersAtSnoc(ratio, norm, keys, [r0], r1, 1);
    MembersAtSnoc(ratio, norm, keys, [r0, r1], r2, 1);
  }

  /** On the three titles of `GreedyTrace` the first fit creates the keys of the first and third. */
  lemma GreedyTraceOrder(ratio: (string, string) -> real, norm: string -> string, x: string, y: string, z: string)
    requires IdenticalRatioIsOne(ratio)
    requires x != "" && y != "" && z != ""
    requires norm(x) == norm(y) && !Similar(ratio, norm(x), norm(z))
    ensures GreedyKeys(ratio, norm, [Row(1, Some(x)), Row(2, Some(y)), Row(3, Some(z))]) == [norm(x), norm(z)]
  {
    var a, c := norm(x), norm(z);
    GreedyTraceKeys(ratio, a, c);
    assert a != c by {
      assert ratio(a, a) == 1.0;
    }
    var r0, r1, r2 := Row(1, Some(x)), Row(2, Some(y)), Row(3, Some(z));
    assert [r0] == [] + [r0] && [r0, r1] == [r0] + [r1] && [r0, r1, r2] == [r0, r1] + [r2];
    GreedyKeysSnoc(ratio, norm, [], r0);
    assert GreedyKeys(ratio, norm, [r0]) == [a];
    GreedyKeysSnoc(ratio, norm, [r0], r1);
    assert GreedyKeys(ratio, norm, [r0, r1]) == [a];
    GreedyKeysSnoc(ratio, norm, [r0, r1], r2);
  }

  /** Of two members with itemIDs 1 and 2, the plan keeps 1 and deletes 2. */
  lemma KeepLowerOfTwo(key: string, x: string, y: string)
    ensures Decide(key, MemberIds([Member(1, x), Member(2, y)])) == Deletion(key, 1, {2})
  {
    assert MemberIds([Member(1, x), Member(2, y)]) == [1, 2];
    assert AsSet([1, 2]) == {1, 2};
  }

  /**
   * The fuzzy example: "Deep Knowledge Tracing" and "deep knowledge
   * tracing." join one group, and "Unrelated Study", whose ratio to that key
   * is at most the threshold, starts its own; the greedy keys are those two
   * and the plan keeps itemID 1.
   */
  lemma FuzzyExample(ratio: (string, string) -> real)
    requires IdenticalRatioIsOne(ratio)
    requires !Similar(ratio, NormalizeTitle(TitleA), NormalizeTitle(TitleC))
    ensures var a, c := NormalizeTitle(TitleA), NormalizeTitle(TitleC);
      && GreedyKeys(ratio, NormalizeTitle, FuzzyRows) == [a, c]
      && FirstSimilar(ratio, [a], NormalizeTitle(TitleB)) == 0
      && FirstSimilar(ratio, [a], c) == 1
      && KeysDissimilar(ratio, [a, c])
      && MembersAt(ratio, NormalizeTitle, [a, c], FuzzyRows, 0) == [Member(1, TitleA), Member(2, TitleB)]
      && MembersAt(ratio, NormalizeTitle, [a, c], FuzzyRows, 1) == [Member(3, TitleC)]
      && Decide(a, MemberIds(MembersAt(ratio, NormalizeTitle, [a, c], FuzzyRows, 0))) == Deletion(a, 1, {2})
  {
    FuzzyTitlesNormalizeAlike();
    GreedyTraceKeys(ratio, NormalizeTitle(TitleA), NormalizeTitle(TitleC));
    GreedyTrace(ratio, NormalizeTitle, TitleA, TitleB, TitleC);
    GreedyTraceOrder(ratio, NormalizeTitle, TitleA, TitleB, TitleC);
    KeepLowerOfTwo(NormalizeTitle(TitleA), TitleA, TitleB);
  }

  lemma ElementsOfPair<T>(a: T, b: T)
    ensures (set k | k in [a, b]) == {a, b}
  {
    assert forall k :: k in [a, b] <==> k == a || k == b;
  }

  /**
   * Whatever meets the grouping loop's contract on the three titles of
   * `GreedyTrace` is the grouping the trace builds.
   */
  lemma GreedyTraceGrouping(ratio: (string, string) -> real, norm: string -> string, x: string, y: string, z: string,
                            groups: map<string, seq<Member>>, keys: seq<string>)
    requires IdenticalRatioIsOne(ratio)
    requires x != "" && y != "" && z != ""
    requires norm(x) == norm(y) && !Similar(ratio, norm(x), norm(z))
    requires var rows := [Row(1, Some(x)), Row(2, Some(y)), Row(3, Some(z))];
      && (set k | k in keys) == groups.Keys
      && (forall j :: 0 <= j < |keys| ==> groups[keys[j]] == MembersAt(ratio, norm, keys, rows, j))
      && keys == GreedyKeys(ratio, norm, rows)
    ensures keys == [norm(x), norm(z)]
    ensures groups == map[norm(x) := [Member(1, x), Member(2, y)], norm(z) := [Member(3, z)]]
  {
    var a, c := norm(x), norm(z);
    var rows := [Row(1, Some(x)), Row(2, Some(y)), Row(3, Some(z))];
    GreedyTraceOrder(ratio, norm, x, y, z);
    GreedyTrace(ratio, norm, x, y, z);
    ElementsOfPair(a, c);
    var g0, g1 := MembersAt(ratio, norm, keys, rows, 0), MembersAt(ratio, norm, keys, rows, 1);
    assert groups[a] == g0 && groups[c] == g1 by {
      assert keys[0] == a && keys[1] == c;
    }
    MapOfPair(groups, a, c);
  }

  lemma MapOfPair<K, V>(m: map<K, V>, a: K, b: K)
    requires m.Keys == {a, b}
    ensures m == map[a := m[a], b := m[b]]
  {
  }

  /**
   * Whatever meets the grouping loop's contract on the fuzzy example is the
   * grouping it builds: keys "deep knowledge tracing" then "unrelated
   * study", holding rows 1 and 2 and row 3 respectively.
   */
  lemma FuzzyGrouping(ratio: (string, string) -> real, groups: map<string, seq<Member>>, keys: seq<string>)
    requires IdenticalRatioIsOne(ratio)
    requires !Similar(ratio, NormalizeTitle(TitleA), NormalizeTitle(TitleC))
    requires (set k | k in keys) == groups.Keys
    requires forall j :: 0 <= j < |keys| ==> groups[keys[j]] == MembersAt(ratio, NormalizeTitle, keys, FuzzyRows, j)
    requires keys == GreedyKeys(ratio, NormalizeTitle, FuzzyRows)
    ensures var a, c := NormalizeTitle(TitleA), NormalizeTitle(TitleC);
      keys == [a, c] && groups == map[a := [Member(1, TitleA), Member(2, TitleB)], c := [Member(3, TitleC)]]
  {
    FuzzyTitlesNormalizeAlike();
    GreedyTraceGrouping(ratio, NormalizeTitle, TitleA, TitleB, TitleC, groups, keys);
  }

  /**
   * The grouping loop's contract fixes its result: two results that both
   * meet it on the same rows have the same keys, in the same order, and the
   * same groups.
   */
  lemma GroupingDetermined(ratio: (string, string) -> real, norm: string -> string, items: seq<Row>,
                           groups1: map<string, seq<Member>>, keys1: seq<string>,
                           groups2: map<string, seq<Member>>, keys2: seq<string>)
    requires (set k | k in keys1) == groups1.Keys && (set k | k in keys2) == groups2.Keys
    requires forall j :: 0 <= j < |keys1| ==> groups1[keys1[j]] == MembersAt(ratio, norm, keys1, items, j)
    requires forall j :: 0 <= j < |keys2| ==> groups2[keys2[j]] == MembersAt(ratio, norm, keys2, items, j)
    requires keys1 == GreedyKeys(ratio, norm, items) && keys2 == GreedyKeys(ratio, norm, items)
    ensures keys1 == keys2 && groups1 == groups2
  {
    var keys := keys1;
    forall j | 0 <= j < |keys| ensures groups1[keys[j]] == groups2[keys[j]] {
    }
    forall k | k in groups1.Keys ensures k in groups2 && groups1[k] == groups2[k] {
      assert k in keys;
      var j :| 0 <= j < |keys| && keys[j] == k;
    }
  }
}
