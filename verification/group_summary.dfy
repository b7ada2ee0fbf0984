/**
 * `group_and_summarize`: the rows are grouped by their raw cells at some key
 * columns, the groups are kept in the order in which their keys first appear,
 * and only the first `limit` groups are summarised.
 */
module GroupSummary {
  import opened Seqs
  import opened TableSummary

  /** A group key: the raw cells of a row at the key columns, in key-column order. */
  type Key = seq<string>

  /** `[header.index(col) for col in group_cols if col in header]`. */
  function PresentIndices(header: seq<string>, groupCols: seq<string>): seq<nat> {
    if groupCols == [] then []
    else
      (if groupCols[0] in header then [FirstIndex(header, groupCols[0])] else []) + PresentIndices(header, groupCols[1..])
  }

  /**
   * The index list is as long as the key columns exactly when every key column
   * is in the header, and then it holds each key column's first position.
   */
  lemma {:induction false} PresentIndicesSpec(header: seq<string>, groupCols: seq<string>)
    ensures |PresentIndices(header, groupCols)| <= |groupCols|
    ensures |PresentIndices(header, groupCols)| == |groupCols| <==> forall c :: c in groupCols ==> c in header
    ensures |PresentIndices(header, groupCols)| == |groupCols| ==>
              forall k :: 0 <= k < |groupCols| ==> PresentIndices(header, groupCols)[k] == FirstIndex(header, groupCols[k])
  {
    if groupCols != [] {
      PresentIndicesSpec(header, groupCols[1..]);
      assert forall c :: c in groupCols <==> c == groupCols[0] || c in groupCols[1..];
      if |PresentIndices(header, groupCols)| == |groupCols| {
        assert groupCols[0] in header;
        forall k | 0 <= k < |groupCols|
          ensures PresentIndices(header, groupCols)[k] == FirstIndex(header, groupCols[k])
        {
          if k > 0 {
            assert groupCols[k] == groupCols[1..][k - 1];
          }
        }
      }
    }
  }

  /** `row` has a cell at every key index; otherwise building its key raises IndexError. */
  predicate RowCovers(row: Row, idxs: seq<nat>) {
    forall k :: 0 <= k < |idxs| ==> idxs[k] < |row|
  }

  predicate AllCovered(rows: seq<Row>, idxs: seq<nat>) {
    forall r :: 0 <= r < |rows| ==> RowCovers(rows[r], idxs)
  }

  /** `tuple(row[i] for i in idxs)`. */
  function KeyOf(row: Row, idxs: seq<nat>): (key: Key)
    requires RowCovers(row, idxs)
    ensures |key| == |idxs| && forall k :: 0 <= k < |idxs| ==> key[k] == row[idxs[k]]
  {
    seq(|idxs|, k requires 0 <= k < |idxs| => row[idxs[k]])
  }

  /** The key of every row, in row order. */
  function RowKeys(rows: seq<Row>, idxs: seq<nat>): (keys: seq<Key>)
    requires AllCovered(rows, idxs)
    ensures |keys| == |rows| && forall r :: 0 <= r < |rows| ==> keys[r] == KeyOf(rows[r], idxs)
  {
    seq(|rows|, r requires 0 <= r < |rows| && RowCovers(rows[r], idxs) => KeyOf(rows[r], idxs))
  }

  /** The group keys: each distinct row key once, in the order in which it first appears. */
  function GroupKeys(rows: seq<Row>, idxs: seq<nat>): seq<Key>
    requires AllCovered(rows, idxs)
  {
    Dedup(RowKeys(rows, idxs))
  }

  /** The rows whose key is `key`. */
  function Members(rows: seq<Row>, idxs: seq<nat>, key: Key): seq<Row>
    requires AllCovered(rows, idxs)
  {
    if rows == [] then []
    else
      var last := rows[|rows| - 1];
      Members(rows[..|rows| - 1], idxs, key) + (if KeyOf(last, idxs) == key then [last] else [])
  }

  /**
   * The group keys are distinct; they are exactly the keys of the rows; and
   * they come in the order of the first row that has each.
   */
  lemma GroupKeysSpec(rows: seq<Row>, idxs: seq<nat>)
    requires AllCovered(rows, idxs)
    ensures Distinct(GroupKeys(rows, idxs))
    ensures forall r :: 0 <= r < |rows| ==> KeyOf(rows[r], idxs) in GroupKeys(rows, idxs)
    ensures forall k :: k in GroupKeys(rows, idxs) ==> k in RowKeys(rows, idxs)
    ensures forall i, j :: 0 <= i < j < |GroupKeys(rows, idxs)| ==>
              FirstIndex(RowKeys(rows, idxs), GroupKeys(rows, idxs)[i]) <
              FirstIndex(RowKeys(rows, idxs), GroupKeys(rows, idxs)[j])
  {
    var keys := RowKeys(rows, idxs);
    DedupOrder(keys);
    forall r | 0 <= r < |rows| ensures KeyOf(rows[r], idxs) in GroupKeys(rows, idxs) {
      assert keys[r] in keys;
    }
  }

  /** A group holds exactly the rows with its key. */
  lemma {:induction false} MembersSpec(rows: seq<Row>, idxs: seq<nat>, key: Key)
    requires AllCovered(rows, idxs)
    ensures forall x :: x in Members(rows, idxs, key) <==> x in rows && RowCovers(x, idxs) && KeyOf(x, idxs) == key
  {
    if rows != [] {
      var init, last := rows[..|rows| - 1], rows[|rows| - 1];
      assert rows == init + [last];
      MembersSpec(init, idxs, key);
    }
  }

  /** Grouping keeps the rows' order: the members of the rows of `a + b` are those of `a` followed by those of `b`. */
  lemma {:induction false} MembersAppend(a: seq<Row>, b: seq<Row>, idxs: seq<nat>, key: Key)
    requires AllCovered(a, idxs) && AllCovered(b, idxs)
    ensures AllCovered(a + b, idxs)
    ensures Members(a + b, idxs, key) == Members(a, idxs, key) + Members(b, idxs, key)
  {
    var ab := a + b;
    assert AllCovered(ab, idxs) by {
      forall r | 0 <= r < |ab| ensures RowCovers(ab[r], idxs) {
        if r >= |a| { assert ab[r] == b[r - |a|]; }
      }
    }
    if b != [] {
      var binit := b[..|b| - 1];
      assert ab[..|ab| - 1] == a + binit;
      MembersAppend(a, binit, idxs, key);
    } else {
      assert ab == a;
    }
  }

  /** The total size of the groups of `keys`. */
  function GroupSizes(rows: seq<Row>, idxs: seq<nat>, keys: seq<Key>): nat
    requires AllCovered(rows, idxs)
  {
    if keys == [] then 0
    else GroupSizes(rows, idxs, keys[..|keys| - 1]) + |Members(rows, idxs, keys[|keys| - 1])|
  }

  /** One more row adds one to the total size of any list of distinct keys that holds its key, and nothing otherwise. */
  lemma {:induction false} GroupSizesSnoc(rows: seq<Row>, x: Row, idxs: seq<nat>, keys: seq<Key>)
    requires AllCovered(rows, idxs) && RowCovers(x, idxs) && Distinct(keys)
    ensures AllCovered(rows + [x], idxs)
    ensures GroupSizes(rows + [x], idxs, keys) == GroupSizes(rows, idxs, keys) + (if KeyOf(x, idxs) in keys then 1 else 0)
  {
    AllCoveredSnoc(rows, x, idxs);
    assert (rows + [x])[..|rows|] == rows;
    if keys != [] {
      var init, k := keys[..|keys| - 1], keys[|keys| - 1];
      assert keys == init + [k];
      GroupSizesSnoc(rows, x, idxs, init);
      assert KeyOf(x, idxs) in keys <==> KeyOf(x, idxs) in init || KeyOf(x, idxs) == k;
      assert KeyOf(x, idxs) == k ==> KeyOf(x, idxs) !in init;
    }
  }

  /** Appending a row keeps every row covered exactly when the new row is covered. */
  lemma AllCoveredSnoc(rows: seq<Row>, x: Row, idxs: seq<nat>)
    ensures AllCovered(rows + [x], idxs) <==> AllCovered(rows, idxs) && RowCovers(x, idxs)
  {
    var rx := rows + [x];
    assert rx[|rows|] == x;
    assert forall r :: 0 <= r < |rows| ==> rx[r] == rows[r];
  }

  /** Appending a row appends its key to the row keys and, when it is new, to the group keys. */
  lemma KeysSnoc(rows: seq<Row>, x: Row, idxs: seq<nat>)
    requires AllCovered(rows, idxs) && RowCovers(x, idxs)
    ensures AllCovered(rows + [x], idxs)
    ensures RowKeys(rows + [x], idxs) == RowKeys(rows, idxs) + [KeyOf(x, idxs)]
    ensures GroupKeys(rows + [x], idxs) ==
              if KeyOf(x, idxs) in GroupKeys(rows, idxs) then GroupKeys(rows, idxs)
              else GroupKeys(rows, idxs) + [KeyOf(x, idxs)]
  {
    AllCoveredSnoc(rows, x, idxs);
    var keys := RowKeys(rows + [x], idxs);
    assert keys == RowKeys(rows, idxs) + [KeyOf(x, idxs)];
    assert keys[..|rows|] == RowKeys(rows, idxs);
  }

  /** Appending a row appends it to its own group and to no other. */
  lemma MembersSnoc(rows: seq<Row>, x: Row, idxs: seq<nat>, key: Key)
    requires AllCovered(rows, idxs) && RowCovers(x, idxs)
    ensures AllCovered(rows + [x], idxs)
    ensures Members(rows + [x], idxs, key) == Members(rows, idxs, key) + (if KeyOf(x, idxs) == key then [x] else [])
  {
    AllCoveredSnoc(rows, x, idxs);
    assert (rows + [x])[..|rows|] == rows;
  }

  /** A key that is not yet a group key has no rows. */
  lemma UnseenKeyHasNoMembers(rows: seq<Row>, idxs: seq<nat>, key: Key)
    requires AllCovered(rows, idxs) && key !in GroupKeys(rows, idxs)
    ensures Members(rows, idxs, key) == []
  {
    MembersSpec(rows, idxs, key);
    GroupKeysSpec(rows, idxs);
  }

  /** Every row lies in exactly one group: the groups' sizes add up to the number of rows. */
  lemma {:induction false} GroupsPartition(rows: seq<Row>, idxs: seq<nat>)
    requires AllCovered(rows, idxs)
    ensures GroupSizes(rows, idxs, GroupKeys(rows, idxs)) == |rows|
  {
    if rows != [] {
      var init, x := rows[..|rows| - 1], rows[|rows| - 1];
      assert rows == init + [x];
      AllCoveredSnoc(init, x, idxs);
      GroupsPartition(init, idxs);
      var ks := GroupKeys(init, idxs);
      GroupKeysSpec(init, idxs);
      GroupSizesSnoc(init, x, idxs, ks);
      KeysSnoc(init, x, idxs);
      var kx := KeyOf(x, idxs);
      if kx !in ks {
        assert (ks + [kx])[..|ks|] == ks;
        UnseenKeyHasNoMembers(init, idxs, kx);
        assert Members(rows, idxs, kx) == [x];
      }
    }
  }

  /** A grouping in progress: the keys in insertion order and the rows of each key (a `defaultdict(list)`). */
  datatype Groups = Groups(order: seq<Key>, members: map<Key, seq<Row>>)

  /**
   * The grouping loop of `group_and_summarize`: it fails exactly when some row
   * is too short for a key index, and otherwise yields the group keys in
   * first-appearance order with each key's rows in their original order.
   */
  method GroupRows(rows: seq<Row>, idxs: seq<nat>) returns (g: Option<Groups>)
    ensures g.Some? <==> AllCovered(rows, idxs)
    ensures g.Some? ==> g.value.order == GroupKeys(rows, idxs)
    ensures g.Some? ==> forall k :: k in g.value.members <==> k in g.value.order
    ensures g.Some? ==> forall k :: k in g.value.members ==> g.value.members[k] == Members(rows, idxs, k)
  {
    var order: seq<Key> := [];
    var members: map<Key, seq<Row>> := map[];
    for r := 0 to |rows|
      invariant AllCovered(rows[..r], idxs)
      invariant order == GroupKeys(rows[..r], idxs)
      invariant forall k :: k in members <==> k in order
      invariant forall k :: k in members ==> members[k] == Members(rows[..r], idxs, k)
    {
      var row := rows[r];
      if exists k :: 0 <= k < |idxs| && idxs[k] >= |row| {
        return None;
      }
      var key := KeyOf(row, idxs);
      var done := rows[..r];
      assert rows[..r + 1] == done + [row];
      KeysSnoc(done, row, idxs);
      forall k ensures Members(rows[..r + 1], idxs, k) == Members(done, idxs, k) + (if key == k then [row] else []) {
        MembersSnoc(done, row, idxs, k);
      }
      if key in members {
        members := members[key := members[key] + [row]];
      } else {
        UnseenKeyHasNoMembers(done, idxs, key);
        order := order + [key];
        members := members[key := [row]];
      }
    }
    assert rows[..|rows|] == rows;
    return Some(Groups(order, members));
  }

  /** The outcome of `group_and_summarize`. */
  datatype GroupedReport =
    | Skipped                                              // a key column is missing from the header: nothing happens
    | KeyIndexError                                        // a row is too short for a key column: `row[i]` raises
    | Aborted(done: seq<(Key, Summary)>)                   // summarising the next group raised, after these groups
    | Grouped(groups: seq<(Key, Summary)>, truncated: bool) // the groups summarised, and whether "... truncated ..." was printed

  /** How many groups are summarised: the loop stops at the first index `i >= limit`. */
  function Shown(groupCount: nat, limit: int): nat {
    if limit <= 0 then 0 else if limit < groupCount then limit else groupCount
  }

  /** `reports` are the first groups of `keys`, each paired with the summary of exactly its rows. */
  ghost predicate SummarisedPrefix(header: seq<string>, rows: seq<Row>, idxs: seq<nat>, keys: seq<Key>,
                                   reports: seq<(Key, Summary)>, num: NumberSyntax)
    requires AllCovered(rows, idxs)
  {
    |reports| <= |keys| &&
    forall g :: 0 <= g < |reports| ==>
      var s := SummaryOf(header, Members(rows, idxs, keys[g]), num);
      s.Some? && reports[g] == (keys[g], s.value)
  }

  /** One more summarised group extends the prefix. */
  lemma SummarisedPrefixSnoc(header: seq<string>, rows: seq<Row>, idxs: seq<nat>, keys: seq<Key>,
                             reports: seq<(Key, Summary)>, num: NumberSyntax, s: Summary)
    requires AllCovered(rows, idxs) && SummarisedPrefix(header, rows, idxs, keys, reports, num)
    requires |reports| < |keys| && SummaryOf(header, Members(rows, idxs, keys[|reports|]), num) == Some(s)
    ensures SummarisedPrefix(header, rows, idxs, keys, reports + [(keys[|reports|], s)], num)
  {
  }

  /**
   * `group_and_summarize(header, rows, group_cols, limit)`: nothing when a key
   * column is missing; otherwise the first `limit` groups, in first-appearance
   * order, each summarised over exactly its own rows, and the truncation marker
   * exactly when there are more groups than that. Summarising a group fails
   * when one of its rows does not fit the header, and that ends the run.
   */
  method GroupAndSummarize(header: seq<string>, rows: seq<Row>, groupCols: seq<string>, limit: int, num: NumberSyntax)
    returns (out: GroupedReport)
    ensures out.Skipped? <==> exists c :: c in groupCols && c !in header
    ensures !out.Skipped? ==>
              var idxs := PresentIndices(header, groupCols);
              (out.KeyIndexError? <==> !AllCovered(rows, idxs)) &&
              (AllCovered(rows, idxs) ==>
                 var keys := GroupKeys(rows, idxs);
                 var n := Shown(|keys|, limit);
                 (out.Grouped? ==>
                    |out.groups| == n && (out.truncated <==> |keys| > n) &&
                    SummarisedPrefix(header, rows, idxs, keys, out.groups, num)) &&
                 (out.Aborted? ==>
                    |out.done| < n && SummarisedPrefix(header, rows, idxs, keys, out.done, num) &&
                    SummaryOf(header, Members(rows, idxs, keys[|out.done|]), num).None?))
  {
    var idxs := PresentIndices(header, groupCols);
    PresentIndicesSpec(header, groupCols);
    if |idxs| != |groupCols| {
      return Skipped;
    }
    var grouping := GroupRows(rows, idxs);
    if grouping.None? {
      return KeyIndexError;
    }
    out := SummariseGroups(header, rows, idxs, grouping.value, limit, num);
  }

  /** The summarising loop of `group_and_summarize`, over the groups of `rows`. */
  method SummariseGroups(header: seq<string>, rows: seq<Row>, idxs: seq<nat>, grouping: Groups, limit: int, num: NumberSyntax)
    returns (out: GroupedReport)
    requires AllCovered(rows, idxs) && grouping.order == GroupKeys(rows, idxs)
    requires forall k :: k in grouping.members <==> k in grouping.order
    requires forall k :: k in grouping.members ==> grouping.members[k] == Members(rows, idxs, k)
    ensures out.Grouped? || out.Aborted?
    ensures out.Grouped? ==>
              var n := Shown(|grouping.order|, limit);
              |out.groups| == n && (out.truncated <==> |grouping.order| > n) &&
              SummarisedPrefix(header, rows, idxs, grouping.order, out.groups, num)
    ensures out.Aborted? ==>
              |out.done| < Shown(|grouping.order|, limit) &&
              SummarisedPrefix(header, rows, idxs, grouping.order, out.done, num) &&
              SummaryOf(header, Members(rows, idxs, grouping.order[|out.done|]), num).None?
  {
    var keys, members := grouping.order, grouping.members;
    ghost var n := Shown(|keys|, limit);
    var reports: seq<(Key, Summary)> := [];
    var i := 0;
    while i < |keys|
      invariant i <= n && |reports| == i
      invariant SummarisedPrefix(header, rows, idxs, keys, reports, num)
    {
      if i >= limit {
        return Grouped(reports, true);
      }
      assert keys[i] in members;
      var s := Summarize(header, members[keys[i]], num);
      if s.None? {
        return Aborted(reports);
      }
      SummarisedPrefixSnoc(header, rows, idxs, keys, reports, num, s.value);
      reports := reports + [(keys[i], s.value)];
      i := i + 1;
    }
    return Grouped(reports, false);
  }
}
