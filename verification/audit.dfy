/** The status map (audit trail) the fold builds: which keys it holds and which labels they
    carry, the case where nothing overlaps, and three worked examples. */
module Audit {
  import opened Rows
  import opened Comparator
  import opened Resolver
  import opened Coverage

  lemma {:induction false} RelabelAllKeepsKeys(L: seq<Row>, n: Record, st: Statuses, byId: bool)
    ensures st.Keys <= RelabelAll(L, n, st, byId).Keys
  {
    if L != [] {
      RelabelAllKeepsKeys(L[..|L| - 1], n, st, byId);
    }
  }

  /** Every record folded in has an entry under its own key (keys are only ever added). */
  lemma {:induction false} FoldStatusComplete(rows: seq<Record>, byId: bool)
    ensures forall r :: r in rows ==> RecordKey(byId, r) in Fold(rows, byId).1
  {
    if rows != [] {
      var prefix, n := rows[..|rows| - 1], rows[|rows| - 1];
      FoldStatusComplete(prefix, byId);
      var prev := Fold(prefix, byId);
      RelabelAllKeepsKeys(prev.0, n, prev.1, byId);
      assert forall r :: r in rows ==> r in prefix || r == n by {
        assert rows == prefix + [n];
      }
    }
  }

  /** Checking `n` against an overlapped row writes the row's label under the key of its
      bounds before the step (the pre-trim key for 'Trimmed End'), and the right fragment's
      'Trimmed Start' under the fragment's own bounds. */
  lemma RelabelPreTrimKey(st: Statuses, byId: bool, e: Row, n: Record)
    requires Hits(n, e) && e.start < e.end && n.start < n.end
    ensures Relabel(st, byId, e, n)[RowKey(byId, e)] == Kept(e, n).status
    ensures Pieces(e, n) != [] ==>
              Relabel(st, byId, e, n)[RowKey(byId, Pieces(e, n)[0])] == TrimmedStart
    ensures Relabel(st, byId, e, n).Keys == st.Keys + {RowKey(byId, e)} + set x | x in Pieces(e, n) :: RowKey(byId, x)
  {
    var ov := OverlapRange(n.start, n.end, e.start, e.end);
    if !FullySubsumes(ov.0, ov.1, e.start, e.end) && ov.1 < e.end {
      var r := RightRemainder(TrimOrRemove(e, ov.0), ov.1, e.end);
      assert Pieces(e, n) == [r];
      assert RowKey(byId, r) != RowKey(byId, e);
    }
  }

  // ---------------------------------------------------------------------------
  // No overlaps: nothing is carved

  predicate RecordsDisjoint(rows: seq<Record>)
  {
    forall i, j :: 0 <= i < j < |rows| ==>
      !Overlaps(rows[i].start, rows[i].end, rows[j].start, rows[j].end)
  }

  function AdmitAll(rows: seq<Record>): (r: seq<Row>)
    ensures |r| == |rows|
  {
    if rows == [] then [] else AdmitAll(rows[..|rows| - 1]) + [Admit(rows[|rows| - 1])]
  }

  lemma {:induction false} Untouched(L: seq<Row>, n: Record, st: Statuses, byId: bool)
    requires forall x :: x in L ==> !Hits(n, x)
    ensures CarveAll(L, n) == L && PiecesAll(L, n) == [] && RelabelAll(L, n, st, byId) == st
  {
    if L != [] {
      var L0, e := L[..|L| - 1], L[|L| - 1];
      assert L == L0 + [e];
      assert !Hits(n, e) && forall x :: x in L0 ==> !Hits(n, x);
      Untouched(L0, n, st, byId);
      assert Kept(e, n) == e && Pieces(e, n) == [];
    }
  }

  lemma {:induction false} AdmitAllShape(rows: seq<Record>, x: Row)
    requires x in AdmitAll(rows)
    ensures exists i :: 0 <= i < |rows| && x == Admit(rows[i])
  {
    var prefix := rows[..|rows| - 1];
    if x != Admit(rows[|rows| - 1]) {
      assert x in AdmitAll(prefix);
      AdmitAllShape(prefix, x);
      var i :| 0 <= i < |prefix| && x == Admit(prefix[i]);
      assert rows[i] == prefix[i];
    }
  }

  /** When no two records overlap, the fold keeps every record as it is, in fold order, and
      every status is 'Added/Retained'. */
  lemma {:induction false} NoOverlapNoChange(rows: seq<Record>, byId: bool)
    requires RecordsDisjoint(rows)
    ensures Fold(rows, byId).0 == AdmitAll(rows)
    ensures forall k :: k in Fold(rows, byId).1 ==> Fold(rows, byId).1[k] == AddedRetained
  {
    if rows != [] {
      var prefix, n := rows[..|rows| - 1], rows[|rows| - 1];
      assert RecordsDisjoint(prefix);
      NoOverlapNoChange(prefix, byId);
      var prev := Fold(prefix, byId);
      forall x | x in prev.0 ensures !Hits(n, x) {
        AdmitAllShape(prefix, x);
        var i :| 0 <= i < |prefix| && x == Admit(prefix[i]);
        assert rows[i] == prefix[i];
      }
      Untouched(prev.0, n, prev.1, byId);
      RemoveFlaggedAppend(prev.0, []);
      forall x | x in prev.0 ensures !x.removeFlag {
        AdmitAllShape(prefix, x);
      }
      RemoveFlaggedNone(prev.0);
      assert prev.0 + [] == prev.0;
    }
  }

  // ---------------------------------------------------------------------------
  // Worked examples (entity 7, days as small integers)

  /** Folding two records: the first is admitted into the empty list, then the second is
      checked against it. */
  lemma FoldTwo(a: Record, b: Record, byId: bool)
    ensures Fold([a], byId) == ([Admit(a)], map[RecordKey(byId, a) := AddedRetained])
    ensures Fold([a, b], byId) == Step([Admit(a)], map[RecordKey(byId, a) := AddedRetained], b, byId)
  {
    assert [a, b][..1] == [a] && [a][..0] == [];
    assert Fold([], byId) == ([], map[]);
    assert CarveAll([], a) == [] && PiecesAll([], a) == [] && RemoveFlagged([]) == [];
    assert RelabelAll([], a, map[], byId) == map[];
    assert CarveAll([], a) + PiecesAll([], a) == [];
    assert RemoveFlagged(CarveAll([], a) + PiecesAll([], a)) + [Admit(a)] == [Admit(a)];
    assert map[][RecordKey(byId, a) := AddedRetained] == map[RecordKey(byId, a) := AddedRetained];
    assert Fold([a], byId) == Step([], map[], a, byId);
  }

  lemma CarveOne(e: Row, n: Record, st: Statuses, byId: bool)
    ensures CarveAll([e], n) == [Kept(e, n)] && PiecesAll([e], n) == Pieces(e, n)
    ensures RelabelAll([e], n, st, byId) == Relabel(st, byId, e, n)
  {
    assert [e][..0] == [];
  }

  /** A long record split by a shorter one folded in after it. */
  lemma SplitExample()
    ensures var a := Record(7, 1, 20, ["a"]);
            var b := Record(7, 5, 10, ["b"]);
            Fold([a, b], true) ==
              ([Row(7, 1, 5, TrimmedEnd, false, ["a"], (1, -20)),
                Row(7, 10, 20, TrimmedStart, false, ["a"], (1, -20)),
                Row(7, 5, 10, AddedRetained, false, ["b"], (5, -10))],
               map[(Some(7), 1, 20) := TrimmedEnd, (Some(7), 10, 20) := TrimmedStart,
                   (Some(7), 5, 10) := AddedRetained])
  {
    var a := Record(7, 1, 20, ["a"]);
    var b := Record(7, 5, 10, ["b"]);
    var st := map[RecordKey(true, a) := AddedRetained];
    FoldTwo(a, b, true);
    CarveOne(Admit(a), b, st, true);
    var k := Row(7, 1, 5, TrimmedEnd, false, ["a"], (1, -20));
    var r := Row(7, 10, 20, TrimmedStart, false, ["a"], (1, -20));
    assert Kept(Admit(a), b) == k;
    assert Pieces(Admit(a), b) == [r];
    assert RemoveFlagged([k, r]) == [k, r] by {
      assert [k, r][1..] == [r] && [r][1..] == [];
      assert RemoveFlagged([r]) == [r];
    }
    assert CarveAll([Admit(a)], b) + PiecesAll([Admit(a)], b) == [k, r];
    assert Relabel(st, true, Admit(a), b) ==
      map[(Some(7), 1, 20) := TrimmedEnd, (Some(7), 10, 20) := TrimmedStart];
    assert RelabelAll([Admit(a)], b, st, true) == Relabel(st, true, Admit(a), b);
    assert Step([Admit(a)], st, b, true).0 == [k, r, Admit(b)];
    assert RecordKey(true, b) == (Some(7), 5, 10);
    assert Step([Admit(a)], st, b, true).1 == map[(Some(7), 1, 20) := TrimmedEnd, (Some(7), 10, 20) := TrimmedStart,
                   (Some(7), 5, 10) := AddedRetained];
  }

  /** Two records with the same bounds: the first is fully subsumed. Its label is written under
      the same key the second one then writes, so only 'Added/Retained' remains. */
  lemma SubsumedExample()
    ensures var a := Record(7, 1, 10, ["a"]);
            var b := Record(7, 1, 10, ["b"]);
            Fold([a, b], true) ==
              ([Row(7, 1, 10, AddedRetained, false, ["b"], (1, -10))], map[(Some(7), 1, 10) := AddedRetained])
  {
    var a := Record(7, 1, 10, ["a"]);
    var b := Record(7, 1, 10, ["b"]);
    var st := map[RecordKey(true, a) := AddedRetained];
    FoldTwo(a, b, true);
    CarveOne(Admit(a), b, st, true);
    var k := MarkSubsumed(Admit(a));
    assert Kept(Admit(a), b) == k;
    assert Pieces(Admit(a), b) == [];
    assert RemoveFlagged([k]) == [] by {
      assert [k][1..] == [];
    }
    assert CarveAll([Admit(a)], b) + PiecesAll([Admit(a)], b) == [k];
    assert [] + [Admit(b)] == [Admit(b)];
    assert Relabel(st, true, Admit(a), b) == map[(Some(7), 1, 10) := RemovedFullySubsumed];
    assert RelabelAll([Admit(a)], b, st, true) == Relabel(st, true, Admit(a), b);
    assert Step([Admit(a)], st, b, true).0 == [Admit(b)];
    assert RecordKey(true, b) == (Some(7), 1, 10);
    assert Step([Admit(a)], st, b, true).1 == map[(Some(7), 1, 10) := AddedRetained];
  }

  /** A shorter record with the same start: the older one loses its start and only its right
      part survives, after which the new record is appended. */
  lemma OverlappedStartExample()
    ensures var a := Record(7, 1, 10, ["a"]);
            var b := Record(7, 1, 5, ["b"]);
            Fold([a, b], true) ==
              ([Row(7, 5, 10, TrimmedStart, false, ["a"], (1, -10)), Row(7, 1, 5, AddedRetained, false, ["b"], (1, -5))],
               map[(Some(7), 1, 10) := RemovedOverlappedStart, (Some(7), 5, 10) := TrimmedStart,
                   (Some(7), 1, 5) := AddedRetained])
  {
    var a := Record(7, 1, 10, ["a"]);
    var b := Record(7, 1, 5, ["b"]);
    var st := map[RecordKey(true, a) := AddedRetained];
    FoldTwo(a, b, true);
    CarveOne(Admit(a), b, st, true);
    var k := Row(7, 1, 10, RemovedOverlappedStart, true, ["a"], (1, -10));
    var r := Row(7, 5, 10, TrimmedStart, false, ["a"], (1, -10));
    assert Kept(Admit(a), b) == k;
    assert Pieces(Admit(a), b) == [r];
    assert RemoveFlagged([k, r]) == [r] by {
      assert [k, r][1..] == [r] && [r][1..] == [];
      assert RemoveFlagged([r]) == [r];
    }
    assert CarveAll([Admit(a)], b) + PiecesAll([Admit(a)], b) == [k, r];
    assert Relabel(st, true, Admit(a), b) ==
      map[(Some(7), 1, 10) := RemovedOverlappedStart, (Some(7), 5, 10) := TrimmedStart];
    assert RelabelAll([Admit(a)], b, st, true) == Relabel(st, true, Admit(a), b);
    assert Step([Admit(a)], st, b, true).0 == [r, Admit(b)];
    assert RecordKey(true, b) == (Some(7), 1, 5);
    assert Step([Admit(a)], st, b, true).1 == map[(Some(7), 1, 10) := RemovedOverlappedStart,
      (Some(7), 5, 10) := TrimmedStart, (Some(7), 1, 5) := AddedRetained];
  }

  /** The fold does not check that start < end. A reversed record [5,3) folded in after
      [1,10) passes the overlap test, trims the older row to [1,5) and splits off [3,10), and
      those two rows overlap: without valid records the result is not pairwise disjoint. */
  lemma ReversedRecordOverlaps()
    ensures var a := Record(7, 1, 10, ["a"]);
            var b := Record(7, 5, 3, ["b"]);
            !ValidRecords([a, b]) &&
            Fold([a, b], true).0 ==
              [Row(7, 1, 5, TrimmedEnd, false, ["a"], (1, -10)),
               Row(7, 3, 10, TrimmedStart, false, ["a"], (1, -10)),
               Row(7, 5, 3, AddedRetained, false, ["b"], (5, -3))] &&
            !Disjoint(Fold([a, b], true).0)
  {
    var a := Record(7, 1, 10, ["a"]);
    var b := Record(7, 5, 3, ["b"]);
    var st := map[RecordKey(true, a) := AddedRetained];
    FoldTwo(a, b, true);
    CarveOne(Admit(a), b, st, true);
    var k := Row(7, 1, 5, TrimmedEnd, false, ["a"], (1, -10));
    var r := Row(7, 3, 10, TrimmedStart, false, ["a"], (1, -10));
    assert Kept(Admit(a), b) == k;
    assert Pieces(Admit(a), b) == [r];
    assert RemoveFlagged([k, r]) == [k, r] by {
      assert [k, r][1..] == [r] && [r][1..] == [];
      assert RemoveFlagged([r]) == [r];
    }
    assert CarveAll([Admit(a)], b) + PiecesAll([Admit(a)], b) == [k, r];
    var R := Step([Admit(a)], st, b, true).0;
    assert R == [k, r, Admit(b)];
    assert Overlaps(R[0].start, R[0].end, R[1].start, R[1].end);
  }
}
