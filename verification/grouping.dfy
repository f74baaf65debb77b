/** The driver: split the table into one group per entity id (or a single group when there
    is no id column), fold each group on its own, and gather the results. */
module Grouping {
  import opened Rows
  import opened Comparator
  import opened Resolver
  import opened Coverage

  predicate StrictlyIncreasing(s: seq<EntityId>)
  {
    forall i, j :: 0 <= i < j < |s| ==> s[i] < s[j]
  }

  /** The ids that occur in the table. */
  function Ids(rows: seq<Record>): set<EntityId>
  {
    set r | r in rows :: r.id
  }

  lemma IncreasingCons(h: EntityId, t: seq<EntityId>)
    requires StrictlyIncreasing(t)
    requires forall y :: y in t ==> h < y
    ensures StrictlyIncreasing([h] + t)
  {
    var s := [h] + t;
    forall i, j | 0 <= i < j < |s| ensures s[i] < s[j] {
      assert s[j] == t[j - 1] && s[j] in t;
      if i > 0 {
        assert s[i] == t[i - 1];
      }
    }
  }

  /** Inserts `x` into an ascending list of distinct ids. */
  function InsertId(x: EntityId, s: seq<EntityId>): (r: seq<EntityId>)
    requires StrictlyIncreasing(s)
    ensures StrictlyIncreasing(r)
    ensures forall y :: y in r <==> y in s || y == x
  {
    if s == [] then [x]
    else if x < s[0] then
      IncreasingCons(x, s);
      [x] + s
    else if x == s[0] then s
    else
      assert s == [s[0]] + s[1..];
      assert forall y :: y in s[1..] ==> s[0] < y by {
        forall y | y in s[1..] ensures s[0] < y {
          var k :| 0 <= k < |s[1..]| && s[1..][k] == y;
          assert s[k + 1] == y;
        }
      }
      var tail := InsertId(x, s[1..]);
      IncreasingCons(s[0], tail);
      [s[0]] + tail
  }

  /** The group keys `groupby` visits: every id of the table once, in ascending order. */
  function SortedIds(rows: seq<Record>): (ids: seq<EntityId>)
    ensures StrictlyIncreasing(ids)
    ensures forall x :: x in ids <==> x in Ids(rows)
  {
    if rows == [] then []
    else
      var prefix := rows[..|rows| - 1];
      assert rows == prefix + [rows[|rows| - 1]];
      assert Ids(rows) == Ids(prefix) + {rows[|rows| - 1].id};
      InsertId(rows[|rows| - 1].id, SortedIds(prefix))
  }

  /** The rows of entity `x`, in table order. */
  function GroupOf(rows: seq<Record>, x: EntityId): seq<Record>
  {
    if rows == [] then []
    else GroupOf(rows[..|rows| - 1], x) + (if rows[|rows| - 1].id == x then [rows[|rows| - 1]] else [])
  }

  lemma {:induction false} GroupOfAppend(a: seq<Record>, b: seq<Record>, x: EntityId)
    ensures GroupOf(a + b, x) == GroupOf(a, x) + GroupOf(b, x)
  {
    if b == [] {
      assert a + b == a;
    } else {
      var b0, z := b[..|b| - 1], b[|b| - 1];
      assert (a + b)[..|a + b| - 1] == a + b0 && (a + b)[|a + b| - 1] == z;
      GroupOfAppend(a, b0, x);
      var t := if z.id == x then [z] else [];
      assert GroupOf(a + b, x) == GroupOf(a + b0, x) + t;
      assert GroupOf(b, x) == GroupOf(b0, x) + t;
    }
  }

  lemma {:induction false} GroupOfMembers(rows: seq<Record>, x: EntityId)
    ensures forall r :: r in GroupOf(rows, x) <==> r in rows && r.id == x
  {
    if rows != [] {
      var prefix := rows[..|rows| - 1];
      GroupOfMembers(prefix, x);
      assert rows == prefix + [rows[|rows| - 1]];
    }
  }

  lemma {:induction false} GroupOfAbsent(rows: seq<Record>, x: EntityId)
    requires forall r :: r in rows ==> r.id != x
    ensures GroupOf(rows, x) == []
  {
    if rows != [] {
      var prefix := rows[..|rows| - 1];
      assert rows[|rows| - 1] in rows;
      assert forall r :: r in prefix ==> r in rows;
      GroupOfAbsent(prefix, x);
    }
  }

  /** Rows of other entities do not change the group of `x`, wherever they stand in the table. */
  lemma OtherEntitiesIrrelevant(a: seq<Record>, b: seq<Record>, x: EntityId)
    requires forall r :: r in b ==> r.id != x
    ensures GroupOf(a + b, x) == GroupOf(a, x)
    ensures GroupOf(b + a, x) == GroupOf(a, x)
  {
    GroupOfAppend(a, b, x);
    GroupOfAppend(b, a, x);
    GroupOfAbsent(b, x);
  }

  /** The groups in the order they are processed, each with its key. The ensures clauses only
      unfold the body for the proofs that use it; what the groups mean is `GroupsMeaning`. */
  function Groups(rows: seq<Record>, byId: bool): (g: seq<(Option<EntityId>, seq<Record>)>)
    ensures byId ==> |g| == |SortedIds(rows)| &&
                     forall j :: 0 <= j < |g| ==> g[j] == (Some(SortedIds(rows)[j]), GroupOf(rows, SortedIds(rows)[j]))
    ensures !byId ==> g == [(None, rows)]
  {
    if byId then
      var ids := SortedIds(rows);
      seq(|ids|, j requires 0 <= j < |ids| => (Some(ids[j]), GroupOf(rows, ids[j])))
    else [(None, rows)]
  }

  /** With an id column there is one group per id of the table, keyed Some(id), in strictly
      increasing key order, and each group holds exactly the table's rows with its id. Without
      one, the only group is the whole table, keyed None. */
  lemma GroupsMeaning(rows: seq<Record>)
    ensures var g := Groups(rows, true);
            && (forall j :: 0 <= j < |g| ==> g[j].0.Some?)
            && (forall i, j :: 0 <= i < j < |g| ==> g[i].0.value < g[j].0.value)
            && (forall x :: x in Ids(rows) <==> exists j :: 0 <= j < |g| && g[j].0 == Some(x))
            && (forall j, r :: 0 <= j < |g| ==> (r in g[j].1 <==> r in rows && r.id == g[j].0.value))
    ensures Groups(rows, false) == [(None, rows)]
  {
    var g, ids := Groups(rows, true), SortedIds(rows);
    forall x | x in Ids(rows) ensures exists j :: 0 <= j < |g| && g[j].0 == Some(x) {
      var j :| 0 <= j < |ids| && ids[j] == x;
      assert g[j].0 == Some(x);
    }
    forall j | 0 <= j < |g| {
      GroupOfMembers(rows, ids[j]);
    }
  }

  /** The rows of entity `x` in a result table. */
  function RowsOf(s: seq<Row>, x: EntityId): seq<Row>
  {
    if s == [] then []
    else RowsOf(s[..|s| - 1], x) + (if s[|s| - 1].id == x then [s[|s| - 1]] else [])
  }

  lemma {:induction false} RowsOfAppend(a: seq<Row>, b: seq<Row>, x: EntityId)
    ensures RowsOf(a + b, x) == RowsOf(a, x) + RowsOf(b, x)
  {
    if b == [] {
      assert a + b == a;
    } else {
      var b0, z := b[..|b| - 1], b[|b| - 1];
      assert (a + b)[..|a + b| - 1] == a + b0 && (a + b)[|a + b| - 1] == z;
      RowsOfAppend(a, b0, x);
      var t := if z.id == x then [z] else [];
      assert RowsOf(a + b, x) == RowsOf(a + b0, x) + t;
      assert RowsOf(b, x) == RowsOf(b0, x) + t;
    }
  }

  // ---------------------------------------------------------------------------
  // A fold keeps the id of the rows it is given

  predicate OfEntity(s: seq<Row>, x: EntityId)
  {
    forall y :: y in s ==> y.id == x
  }

  lemma {:induction false} CarveKeepsId(L: seq<Row>, n: Record, x: EntityId)
    requires OfEntity(L, x)
    ensures OfEntity(CarveAll(L, n) + PiecesAll(L, n), x)
  {
    if L != [] {
      var L0, e := L[..|L| - 1], L[|L| - 1];
      assert e in L;
      assert forall y :: y in L0 ==> y in L;
      CarveKeepsId(L0, n, x);
      assert Kept(e, n).id == x;
      assert forall y :: y in Pieces(e, n) ==> y.id == x;
      assert forall y :: y in CarveAll(L, n) + PiecesAll(L, n) ==>
        y in CarveAll(L0, n) + PiecesAll(L0, n) || y == Kept(e, n) || y in Pieces(e, n);
    }
  }

  lemma {:induction false} FoldKeepsId(rows: seq<Record>, x: EntityId, byId: bool)
    requires forall r :: r in rows ==> r.id == x
    ensures OfEntity(Fold(rows, byId).0, x)
  {
    if rows != [] {
      var prefix, n := rows[..|rows| - 1], rows[|rows| - 1];
      assert forall r :: r in prefix ==> r in rows;
      assert n in rows;
      FoldKeepsId(prefix, x, byId);
      var prev := Fold(prefix, byId);
      CarveKeepsId(prev.0, n, x);
      RemoveFlaggedMembers(CarveAll(prev.0, n) + PiecesAll(prev.0, n));
    }
  }

  /** The folded result of one entity's group holds rows of that entity only. */
  lemma GroupResultOfEntity(rows: seq<Record>, x: EntityId, byId: bool)
    ensures OfEntity(Fold(SortByPriority(GroupOf(rows, x)), byId).0, x)
  {
    var g := GroupOf(rows, x);
    GroupOfMembers(rows, x);
    forall r | r in SortByPriority(g) ensures r.id == x {
      assert r in multiset(SortByPriority(g));
      assert r in multiset(g);
    }
    FoldKeepsId(SortByPriority(g), x, byId);
  }

  lemma {:induction false} RowsOfUniform(s: seq<Row>, y: EntityId, x: EntityId)
    requires OfEntity(s, y)
    ensures RowsOf(s, x) == if x == y then s else []
  {
    if s != [] {
      var s0 := s[..|s| - 1];
      assert s[|s| - 1] in s;
      assert forall r :: r in s0 ==> r in s;
      RowsOfUniform(s0, y, x);
      assert s == s0 + [s[|s| - 1]];
    }
  }

  /** `pd.concat` of the per-group tables. */
  function Concat(parts: seq<seq<Row>>): seq<Row>
  {
    if parts == [] then [] else Concat(parts[..|parts| - 1]) + parts[|parts| - 1]
  }

  /** Part `j` holds rows of entity `keys[j]` only. */
  predicate PartsOf(parts: seq<seq<Row>>, keys: seq<EntityId>)
  {
    |parts| == |keys| && forall j :: 0 <= j < |parts| ==> OfEntity(parts[j], keys[j])
  }

  /** Gathering per-entity tables: the rows of `x` in the concatenation are exactly the table
      of the group whose key is `x`, or nothing when no group has that key. */
  lemma {:induction false} RowsOfConcat(parts: seq<seq<Row>>, keys: seq<EntityId>, x: EntityId)
    requires PartsOf(parts, keys) && StrictlyIncreasing(keys)
    ensures forall j :: 0 <= j < |keys| && keys[j] == x ==> RowsOf(Concat(parts), x) == parts[j]
    ensures x !in keys ==> RowsOf(Concat(parts), x) == []
  {
    if parts != [] {
      var m := |parts| - 1;
      var P0, K0 := parts[..m], keys[..m];
      assert PartsOf(P0, K0) by {
        forall j | 0 <= j < m ensures OfEntity(P0[j], K0[j]) {
          assert P0[j] == parts[j] && K0[j] == keys[j];
        }
      }
      assert StrictlyIncreasing(K0);
      RowsOfConcat(P0, K0, x);
      RowsOfAppend(Concat(P0), parts[m], x);
      RowsOfUniform(parts[m], keys[m], x);
      if keys[m] == x {
        assert x !in K0 by {
          assert forall j :: 0 <= j < m ==> K0[j] < keys[m];
        }
        assert Concat(P0) + parts[m] == Concat(parts);
      } else {
        assert forall j :: 0 <= j < m && keys[j] == x ==> K0[j] == x;
        assert x in keys ==> x in K0 by {
          assert keys == K0 + [keys[m]];
        }
      }
    }
  }

  // ---------------------------------------------------------------------------
  // The driver

  /** The per-group fold, the same for every group. */
  function GroupResult(g: (Option<EntityId>, seq<Record>), byId: bool): (seq<Row>, Statuses)
  {
    Fold(SortByPriority(g.1), byId)
  }

  /** The keys of the groups, in group order. */
  function KeysOf(groups: seq<(Option<EntityId>, seq<Record>)>): (k: seq<Option<EntityId>>)
    ensures |k| == |groups|
  {
    seq(|groups|, j requires 0 <= j < |groups| => groups[j].0)
  }

  /** The fold of every group, in group order. */
  function ResultsOf(groups: seq<(Option<EntityId>, seq<Record>)>, byId: bool): (r: seq<(seq<Row>, Statuses)>)
    ensures |r| == |groups|
  {
    seq(|groups|, j requires 0 <= j < |groups| => GroupResult(groups[j], byId))
  }

  /** The driver loop's state after the groups with `keys` and fold `results` have been
      handled in order: the list of per-group tables, and the status maps by group key. */
  function Gather(keys: seq<Option<EntityId>>, results: seq<(seq<Row>, Statuses)>):
    (r: (seq<seq<Row>>, map<Option<EntityId>, Statuses>))
    requires |keys| == |results|
    ensures |r.0| == |keys|
  {
    if keys == [] then ([], map[])
    else
      var m := |keys| - 1;
      var prev := Gather(keys[..m], results[..m]);
      (prev.0 + [results[m].0], prev.1[keys[m] := results[m].1])
  }

  predicate DistinctKeys(keys: seq<Option<EntityId>>)
  {
    forall i, j :: 0 <= i < j < |keys| ==> keys[i] != keys[j]
  }

  /** Each group's table sits at the group's position. */
  lemma {:induction false} GatherParts(keys: seq<Option<EntityId>>, results: seq<(seq<Row>, Statuses)>)
    requires |keys| == |results|
    ensures forall j :: 0 <= j < |keys| ==> Gather(keys, results).0[j] == results[j].0
  {
    if keys != [] {
      var m := |keys| - 1;
      GatherParts(keys[..m], results[..m]);
    }
  }

  /** The status map has exactly one entry per group key. */
  lemma {:induction false} GatherKeys(keys: seq<Option<EntityId>>, results: seq<(seq<Row>, Statuses)>, k: Option<EntityId>)
    requires |keys| == |results|
    ensures k in Gather(keys, results).1 <==> k in keys
  {
    if keys != [] {
      var m := |keys| - 1;
      GatherKeys(keys[..m], results[..m], k);
      assert keys == keys[..m] + [keys[m]];
    }
  }

  /** Keys are distinct, so no group's statuses are overwritten by a later group's. */
  lemma {:induction false} GatherStatusAt(keys: seq<Option<EntityId>>, results: seq<(seq<Row>, Statuses)>, j: nat)
    requires |keys| == |results| && DistinctKeys(keys) && j < |keys|
    ensures keys[j] in Gather(keys, results).1
    ensures Gather(keys, results).1[keys[j]] == results[j].1
  {
    var m := |keys| - 1;
    if j < m {
      var K0 := keys[..m];
      assert DistinctKeys(K0);
      GatherStatusAt(K0, results[..m], j);
      assert K0[j] == keys[j] && keys[j] != keys[m];
    }
  }

  lemma GatherPrefix(keys: seq<Option<EntityId>>, results: seq<(seq<Row>, Statuses)>, k: nat)
    requires |keys| == |results| && k < |keys|
    ensures var prev := Gather(keys[..k], results[..k]);
            Gather(keys[..k + 1], results[..k + 1]) == (prev.0 + [results[k].0], prev.1[keys[k] := results[k].1])
  {
    assert keys[..k + 1][..k] == keys[..k];
    assert results[..k + 1][..k] == results[..k];
  }

  lemma ByIdDistinct(rows: seq<Record>)
    ensures DistinctKeys(KeysOf(Groups(rows, true)))
  {
    var keys, ids := KeysOf(Groups(rows, true)), SortedIds(rows);
    forall i, j | 0 <= i < j < |keys| ensures keys[i] != keys[j] {
      assert ids[i] < ids[j];
    }
  }

  /** With an id column, each entity's rows in the concatenated table are that entity's own
      fold, and nothing else. */
  lemma GatherByIdRows(rows: seq<Record>, x: EntityId)
    ensures var groups := Groups(rows, true);
            RowsOf(Concat(Gather(KeysOf(groups), ResultsOf(groups, true)).0), x) ==
              Fold(SortByPriority(GroupOf(rows, x)), true).0
  {
    var groups, ids := Groups(rows, true), SortedIds(rows);
    var results := ResultsOf(groups, true);
    var parts := Gather(KeysOf(groups), results).0;
    GatherParts(KeysOf(groups), results);
    assert PartsOf(parts, ids) by {
      forall j | 0 <= j < |ids| ensures OfEntity(parts[j], ids[j]) {
        GroupResultOfEntity(rows, ids[j], true);
      }
    }
    RowsOfConcat(parts, ids, x);
    if x !in ids {
      GroupOfAbsent(rows, x);
    } else {
      var j :| 0 <= j < |ids| && ids[j] == x;
      assert parts[j] == results[j].0;
    }
  }

  /** With an id column, there is one status entry per id, under Some(id). */
  lemma GatherByIdKeys(rows: seq<Record>, k: Option<EntityId>)
    ensures var groups := Groups(rows, true);
            k in Gather(KeysOf(groups), ResultsOf(groups, true)).1 <==> k.Some? && k.value in Ids(rows)
  {
    var groups, ids := Groups(rows, true), SortedIds(rows);
    var keys := KeysOf(groups);
    GatherKeys(keys, ResultsOf(groups, true), k);
    if k.Some? && k.value in Ids(rows) {
      var j :| 0 <= j < |ids| && ids[j] == k.value;
      assert keys[j] == k;
    }
    if k in keys {
      var j :| 0 <= j < |keys| && keys[j] == k;
      assert ids[j] in ids;
    }
  }

  /** With an id column, an entity's statuses are those of its own fold. */
  lemma GatherByIdStatuses(rows: seq<Record>, x: EntityId)
    requires x in Ids(rows)
    ensures var groups := Groups(rows, true);
            var m := Gather(KeysOf(groups), ResultsOf(groups, true)).1;
            Some(x) in m && m[Some(x)] == Fold(SortByPriority(GroupOf(rows, x)), true).1
  {
    var groups, ids := Groups(rows, true), SortedIds(rows);
    ByIdDistinct(rows);
    var j :| 0 <= j < |ids| && ids[j] == x;
    GatherStatusAt(KeysOf(groups), ResultsOf(groups, true), j);
  }

  /** With an id column, the gathered tables and status maps are each entity's own fold. */
  lemma GatherById(rows: seq<Record>)
    ensures var groups := Groups(rows, true);
            var g := Gather(KeysOf(groups), ResultsOf(groups, true));
            (forall x :: RowsOf(Concat(g.0), x) == Fold(SortByPriority(GroupOf(rows, x)), true).0) &&
            (forall k :: k in g.1 <==> k.Some? && k.value in Ids(rows)) &&
            (forall x :: x in Ids(rows) ==> g.1[Some(x)] == Fold(SortByPriority(GroupOf(rows, x)), true).1)
  {
    forall x {
      GatherByIdRows(rows, x);
    }
    forall k {
      GatherByIdKeys(rows, k);
    }
    forall x | x in Ids(rows) {
      GatherByIdStatuses(rows, x);
    }
  }

  /** Without an id column the one group is the whole table, and its fold is everything. */
  lemma GatherNoId(rows: seq<Record>)
    ensures var groups := Groups(rows, false);
            var g := Gather(KeysOf(groups), ResultsOf(groups, false));
            Concat(g.0) == Fold(SortByPriority(rows), false).0 &&
            g.1 == map[None := Fold(SortByPriority(rows), false).1]
  {
    var groups := Groups(rows, false);
    var keys, results := KeysOf(groups), ResultsOf(groups, false);
    assert keys[..0] == [] && results[..0] == [];
    var parts := Gather(keys, results).0;
    assert Concat(parts) == Concat([]) + parts[0];
  }

  /** Sorting a table of valid records gives valid records. */
  lemma SortKeepsValid(rows: seq<Record>)
    requires ValidRecords(rows)
    ensures ValidRecords(SortByPriority(rows))
  {
    var s := SortByPriority(rows);
    forall r | r in s ensures r.start < r.end {
      assert r in multiset(s);
    }
  }

  /** For records with start before end, the consolidated rows of every entity, and the whole
      consolidated table when there is no id column, are pairwise non-overlapping. */
  lemma DriverDisjoint(rows: seq<Record>)
    requires ValidRecords(rows)
    ensures forall x :: Disjoint(Fold(SortByPriority(GroupOf(rows, x)), true).0)
    ensures Disjoint(Fold(SortByPriority(rows), false).0)
  {
    forall x ensures Disjoint(Fold(SortByPriority(GroupOf(rows, x)), true).0) {
      GroupOfMembers(rows, x);
      SortKeepsValid(GroupOf(rows, x));
      FoldDisjoint(SortByPriority(GroupOf(rows, x)), true);
    }
    SortKeepsValid(rows);
    FoldDisjoint(SortByPriority(rows), false);
  }

  /** The driver's loop: folds the groups one by one, appending each table to the list and
      storing each status map under its group key. */
  method FoldGroups(grouped: seq<(Option<EntityId>, seq<Record>)>, byId: bool)
    returns (finalResults: seq<seq<Row>>, allStatuses: map<Option<EntityId>, Statuses>)
    ensures (finalResults, allStatuses) == Gather(KeysOf(grouped), ResultsOf(grouped, byId))
  {
    ghost var keys, results := KeysOf(grouped), ResultsOf(grouped, byId);
    finalResults, allStatuses := [], map[];
    var k := 0;
    while k < |grouped|
      invariant 0 <= k <= |grouped|
      invariant (finalResults, allStatuses) == Gather(keys[..k], results[..k])
    {
      GatherPrefix(keys, results, k);
      var fl, st := ProcessIntervalsForId(grouped[k].1, byId);
      assert (fl, st) == results[k];
      finalResults := finalResults + [fl];
      allStatuses := allStatuses[grouped[k].0 := st];
      k := k + 1;
    }
    assert keys[..k] == keys && results[..k] == results;
  }

  /** Groups the table, folds every group and concatenates the row tables in group order; the
      status maps are keyed by group key. With an id column, the rows of each entity are that
      entity's own fold and nothing else; without one, the whole table is a single group keyed
      None. */
  method ProcessIntervalsSinglethread(rows: seq<Record>, byId: bool)
    returns (finalRows: seq<Row>, allStatuses: map<Option<EntityId>, Statuses>)
    ensures byId ==> forall x :: RowsOf(finalRows, x) == Fold(SortByPriority(GroupOf(rows, x)), true).0
    ensures byId ==> forall k :: k in allStatuses <==> k.Some? && k.value in Ids(rows)
    ensures byId ==> forall x :: x in Ids(rows) ==>
                       allStatuses[Some(x)] == Fold(SortByPriority(GroupOf(rows, x)), true).1
    ensures !byId ==> finalRows == Fold(SortByPriority(rows), false).0
    ensures !byId ==> allStatuses == map[None := Fold(SortByPriority(rows), false).1]
    ensures byId && ValidRecords(rows) ==> forall x :: Disjoint(RowsOf(finalRows, x))
    ensures !byId && ValidRecords(rows) ==> Disjoint(finalRows)
  {
    var grouped := Groups(rows, byId);
    var finalResults;
    finalResults, allStatuses := FoldGroups(grouped, byId);
    finalRows := Concat(finalResults);
    if byId {
      GatherById(rows);
    } else {
      GatherNoId(rows);
    }
    if ValidRecords(rows) {
      DriverDisjoint(rows);
    }
  }

  // ---------------------------------------------------------------------------
  // The driver as written

  /** The errors the code as written raises. */
  datatype PyError = KeyError | AttributeError

  datatype Outcome<T> = Success(value: T) | Failure(error: PyError)

  /** The container the per-group tables are gathered in: the empty dict the code starts
      from, or a list. */
  datatype Gathered = EmptyDict | List(parts: seq<seq<Row>>)

  /** `final_results.append(table)`: a dict has no `append`. The ensures clauses only unfold
      the body for `DictGatherFails` and `GatherIntoList`, which state the consequences. */
  function AppendPart(c: Gathered, part: seq<Row>): (r: Outcome<Gathered>)
    ensures c.EmptyDict? ==> r == Failure(AttributeError)
    ensures c.List? ==> r == Success(List(c.parts + [part]))
  {
    match c
    case EmptyDict => Failure(AttributeError)
    case List(ps) => Success(List(ps + [part]))
  }

  /** The status key the code as written builds for a row: it looks up the id column even
      when there is none, and a row has no column named None. */
  function StatusKeyAsWritten(byId: bool, r: Record): Outcome<Key>
  {
    if byId then Success(RecordKey(true, r)) else Failure(KeyError)
  }

  /** The fold's table of every group, in group order. */
  function TablesOf(groups: seq<(Option<EntityId>, seq<Record>)>, byId: bool): (t: seq<seq<Row>>)
    ensures |t| == |groups|
  {
    seq(|groups|, j requires 0 <= j < |groups| => GroupResult(groups[j], byId).0)
  }

  /** The driver loop as written, gathering the groups' tables into `c` in group order. Each
      group's fold builds a status key for every row it admits before the table is appended. */
  function GatherAsWritten(groups: seq<(Option<EntityId>, seq<Record>)>, tables: seq<seq<Row>>,
                           c: Gathered, byId: bool): Outcome<Gathered>
    requires |tables| == |groups|
  {
    if groups == [] then Success(c)
    else
      var m := |groups| - 1;
      match GatherAsWritten(groups[..m], tables[..m], c, byId)
      case Failure(e) => Failure(e)
      case Success(c') =>
        if groups[m].1 != [] && StatusKeyAsWritten(byId, groups[m].1[0]).Failure? then
          Failure(StatusKeyAsWritten(byId, groups[m].1[0]).error)
        else AppendPart(c', tables[m])
  }

  /** With an id column, gathering into the empty dict fails at the first group's append,
      whatever the groups are. */
  lemma {:induction false} DictGatherFails(groups: seq<(Option<EntityId>, seq<Record>)>, tables: seq<seq<Row>>)
    requires |tables| == |groups| > 0
    ensures GatherAsWritten(groups, tables, EmptyDict, true) == Failure(AttributeError)
  {
    var m := |groups| - 1;
    if m > 0 {
      DictGatherFails(groups[..m], tables[..m]);
    } else {
      assert groups[..0] == [];
    }
  }

  /** As written, the driver never returns on a non-empty table: with an id column the first
      append fails, and without one the first status write fails. */
  lemma AsWrittenFails(rows: seq<Record>, byId: bool)
    requires |rows| > 0
    ensures var groups := Groups(rows, byId);
            GatherAsWritten(groups, TablesOf(groups, byId), EmptyDict, byId) ==
              Failure(if byId then AttributeError else KeyError)
  {
    var groups := Groups(rows, byId);
    if byId {
      assert rows[0].id in Ids(rows);
      DictGatherFails(groups, TablesOf(groups, true));
    } else {
      assert groups[..0] == [];
    }
  }

  /** Without an id column the corrected key puts None in the id place and needs no lookup. */
  lemma NoIdColumnKey(r: Record)
    ensures StatusKeyAsWritten(false, r) == Failure(KeyError)
    ensures RecordKey(false, r) == (None, r.start, r.end)
  {
  }

  /** Gathered into a list with the id column's key, the loop returns every group's table in
      group order, the sequence the driver method concatenates. */
  lemma {:induction false} GatherIntoList(groups: seq<(Option<EntityId>, seq<Record>)>, tables: seq<seq<Row>>,
                                          parts: seq<seq<Row>>)
    requires |tables| == |groups|
    ensures GatherAsWritten(groups, tables, List(parts), true) == Success(List(parts + tables))
  {
    if groups == [] {
      assert parts + tables == parts;
    } else {
      var m := |groups| - 1;
      GatherIntoList(groups[..m], tables[..m], parts);
      if groups[m].1 != [] {
        assert StatusKeyAsWritten(true, groups[m].1[0]).Success?;
      }
      assert parts + tables[..m] + [tables[m]] == parts + tables;
    }
  }
}
