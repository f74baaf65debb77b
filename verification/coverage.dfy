/** What the consolidation guarantees about the days covered: after every fold step each day
    is held by the record folded in last among those whose span contains it, and by no other
    row, so the working list stays pairwise non-overlapping. */
module Coverage {
  import opened Rows
  import opened Comparator
  import opened Resolver

  /** Tags of the rows of `s` whose span contains day `p`, counted with multiplicity. */
  function Covering(s: seq<Row>, p: int): multiset<Tag>
  {
    if s == [] then multiset{}
    else Covering(s[..|s| - 1], p) + (if Covers(s[|s| - 1], p) then multiset{RowTag(s[|s| - 1])} else multiset{})
  }

  /** The record that owns day `p` after folding `rows` in this order: the last one whose
      span contains `p`. */
  function Winner(rows: seq<Record>, p: int): Option<Tag>
  {
    if rows == [] then None
    else if InSpan(rows[|rows| - 1], p) then Some(RecordTag(rows[|rows| - 1]))
    else Winner(rows[..|rows| - 1], p)
  }

  function Claimed(w: Option<Tag>): multiset<Tag>
  {
    match w
    case None => multiset{}
    case Some(t) => multiset{t}
  }

  /** No two rows of the list overlap. */
  predicate Disjoint(s: seq<Row>)
  {
    forall i, j :: 0 <= i < j < |s| ==> !Overlaps(s[i].start, s[i].end, s[j].start, s[j].end)
  }

  lemma {:induction false} CoveringAppend(a: seq<Row>, b: seq<Row>, p: int)
    ensures Covering(a + b, p) == Covering(a, p) + Covering(b, p)
  {
    if b == [] {
      assert a + b == a;
    } else {
      assert (a + b)[..|a + b| - 1] == a + b[..|b| - 1];
      CoveringAppend(a, b[..|b| - 1], p);
    }
  }

  lemma CoveringSingle(x: Row, p: int)
    ensures Covering([x], p) == if Covers(x, p) then multiset{RowTag(x)} else multiset{}
  {
    assert [x][..0] == [];
  }

  lemma RemoveFlaggedSingle(x: Row)
    ensures RemoveFlagged([x]) == if x.removeFlag then [] else [x]
  {
    assert [x][1..] == [];
  }

  /** Tag of `x` if its span contains `p`. */
  function Held(x: Row, p: int): multiset<Tag>
  {
    if Covers(x, p) then multiset{RowTag(x)} else multiset{}
  }

  /** One unflagged existing row: the fragments of it that survive a step hold exactly the
      days of it that the incoming record does not claim. */
  lemma CarveOneCoverage(e: Row, n: Record, p: int)
    requires n.start < n.end && !e.removeFlag
    ensures Covering(RemoveFlagged([Kept(e, n)]), p) + Covering(Pieces(e, n), p)
            == if InSpan(n, p) then multiset{} else Held(e, p)
  {
    var k := Kept(e, n);
    RemoveFlaggedSingle(k);
    CoveringSingle(k, p);
    assert Covering([], p) == multiset{};
    var left := if k.removeFlag then multiset{} else Held(k, p);
    assert Covering(RemoveFlagged([k]), p) == left;
    if !Hits(n, e) {
      assert k == e && Pieces(e, n) == [];
      assert Covers(e, p) ==> !InSpan(n, p);
    } else {
      var ov := OverlapRange(n.start, n.end, e.start, e.end);
      SubsumesIffContains(n.start, n.end, e.start, e.end);
      if FullySubsumes(ov.0, ov.1, e.start, e.end) {
        assert k.removeFlag && Pieces(e, n) == [];
      } else {
        PartialCoverage(e, n, p);
      }
    }
  }

  lemma PartialCoverage(e: Row, n: Record, p: int)
    requires n.start < n.end && !e.removeFlag && Hits(n, e)
    requires !(n.start <= e.start && e.end <= n.end)
    ensures (if Kept(e, n).removeFlag then multiset{} else Held(Kept(e, n), p)) + Covering(Pieces(e, n), p)
            == if InSpan(n, p) then multiset{} else Held(e, p)
  {
    var ov := OverlapRange(n.start, n.end, e.start, e.end);
    SubsumesIffContains(n.start, n.end, e.start, e.end);
    var k := Kept(e, n);
    assert k == TrimOrRemove(e, ov.0);
    assert RowTag(k) == RowTag(e);
    if ov.1 < e.end {
      var r := RightRemainder(k, ov.1, e.end);
      assert Pieces(e, n) == [r];
      CoveringSingle(r, p);
      assert ov.1 == n.end && RowTag(r) == RowTag(e);
    } else {
      assert Pieces(e, n) == [];
      assert Covering([], p) == multiset{};
    }
  }

  predicate Unflagged(s: seq<Row>)
  {
    forall x :: x in s ==> !x.removeFlag
  }

  lemma {:induction false} CarveAllCoverage(L: seq<Row>, n: Record, p: int)
    requires n.start < n.end && Unflagged(L)
    ensures Covering(RemoveFlagged(CarveAll(L, n)), p) + Covering(PiecesAll(L, n), p)
            == if InSpan(n, p) then multiset{} else Covering(L, p)
  {
    if L != [] {
      var L0, e := L[..|L| - 1], L[|L| - 1];
      assert e in L && forall x :: x in L0 ==> x in L;
      CarveAllCoverage(L0, n, p);
      RemoveFlaggedAppend(CarveAll(L0, n), [Kept(e, n)]);
      CoveringAppend(RemoveFlagged(CarveAll(L0, n)), RemoveFlagged([Kept(e, n)]), p);
      CoveringAppend(PiecesAll(L0, n), Pieces(e, n), p);
      CarveOneCoverage(e, n, p);
      CoveringSingle(e, p);
    }
  }

  /** Fold-step invariant: a day inside the incoming record is held by it alone; every other
      day is held by exactly the rows (as original records) that held it before. */
  lemma StepCoverage(L: seq<Row>, st: Statuses, n: Record, byId: bool, p: int)
    requires n.start < n.end && Unflagged(L)
    ensures Covering(Step(L, st, n, byId).0, p)
            == if InSpan(n, p) then multiset{RecordTag(n)} else Covering(L, p)
    ensures Unflagged(Step(L, st, n, byId).0)
  {
    RemoveFlaggedMembers(CarveAll(L, n) + PiecesAll(L, n));
    var carved, pieces := CarveAll(L, n), PiecesAll(L, n);
    RemoveFlaggedAppend(carved, pieces);
    PiecesAllStartAtEnd(L, n);
    RemoveFlaggedNone(pieces);
    CarveAllCoverage(L, n, p);
    CoveringAppend(RemoveFlagged(carved) + pieces, [Admit(n)], p);
    CoveringAppend(RemoveFlagged(carved), pieces, p);
    CoveringSingle(Admit(n), p);
  }

  /** The whole fold: every day is held by its winner (the last record in fold order that
      contains it) and by nothing else; a day no record contains is held by nothing. */
  lemma {:induction false} FoldCoverage(rows: seq<Record>, byId: bool, p: int)
    requires ValidRecords(rows)
    ensures Covering(Fold(rows, byId).0, p) == Claimed(Winner(rows, p))
    ensures Unflagged(Fold(rows, byId).0)
  {
    if rows != [] {
      var prefix := rows[..|rows| - 1];
      assert ValidRecords(prefix) by {
        forall r | r in prefix ensures r.start < r.end { assert r in rows; }
      }
      FoldCoverage(prefix, byId, p);
      var prev := Fold(prefix, byId);
      StepCoverage(prev.0, prev.1, rows[|rows| - 1], byId, p);
    }
  }

  // ---------------------------------------------------------------------------
  // From coverage to pairwise non-overlap

  lemma {:induction false} CoveringHas(s: seq<Row>, i: nat, p: int)
    requires i < |s| && Covers(s[i], p)
    ensures RowTag(s[i]) in Covering(s, p)
  {
    if i < |s| - 1 {
      CoveringHas(s[..|s| - 1], i, p);
    }
  }

  lemma {:induction false} CoveringWitness(s: seq<Row>, p: int)
    requires |Covering(s, p)| > 0
    ensures exists i :: 0 <= i < |s| && Covers(s[i], p)
  {
    if !Covers(s[|s| - 1], p) {
      CoveringWitness(s[..|s| - 1], p);
      var i :| 0 <= i < |s| - 1 && Covers(s[..|s| - 1][i], p);
      assert Covers(s[i], p);
    }
  }

  /** A pairwise non-overlapping list holds every day at most once. */
  lemma {:induction false} DisjointHoldsOnce(s: seq<Row>, p: int)
    requires Disjoint(s)
    ensures |Covering(s, p)| <= 1
  {
    if s != [] {
      var s0, x := s[..|s| - 1], s[|s| - 1];
      assert Disjoint(s0);
      DisjointHoldsOnce(s0, p);
      if Covers(x, p) && |Covering(s0, p)| > 0 {
        CoveringWitness(s0, p);
      }
    }
  }

  /** A list of non-empty rows that holds every day at most once is pairwise non-overlapping. */
  lemma HeldOnceDisjoint(s: seq<Row>)
    requires WellFormed(s)
    requires forall p :: |Covering(s, p)| <= 1
    ensures Disjoint(s)
  {
    forall i, j | 0 <= i < j < |s|
      ensures !Overlaps(s[i].start, s[i].end, s[j].start, s[j].end)
    {
      if Overlaps(s[i].start, s[i].end, s[j].start, s[j].end) {
        assert s[i] in s && s[j] in s;
        var p := Max(s[i].start, s[j].start);
        assert s == s[..j] + [s[j]] + s[j + 1..];
        CoveringAppend(s[..j] + [s[j]], s[j + 1..], p);
        CoveringAppend(s[..j], [s[j]], p);
        CoveringSingle(s[j], p);
        CoveringHas(s[..j], i, p);
      }
    }
  }

  /** Surviving fragments are non-empty when the rows they come from are. */
  lemma {:induction false} CarvedWellFormed(L: seq<Row>, n: Record)
    requires WellFormed(L) && n.start < n.end
    ensures forall x :: x in CarveAll(L, n) && !x.removeFlag ==> x.start < x.end
    ensures WellFormed(PiecesAll(L, n))
  {
    if L != [] {
      var L0, e := L[..|L| - 1], L[|L| - 1];
      assert WellFormed(L0) by {
        forall x | x in L0 ensures x.start < x.end { assert x in L; }
      }
      assert e in L;
      CarvedWellFormed(L0, n);
    }
  }

  /** Fold-step invariant as the source relies on it: if the working list is pairwise
      non-overlapping (and of non-empty rows) before a record is folded in, it still is
      afterwards, and it ends with that record, unchanged and labelled 'Added/Retained',
      whose key maps to 'Added/Retained'. */
  lemma StepKeepsDisjoint(L: seq<Row>, st: Statuses, n: Record, byId: bool)
    requires WellFormed(L) && Disjoint(L) && Unflagged(L) && n.start < n.end
    ensures var R := Step(L, st, n, byId).0;
            && WellFormed(R) && Disjoint(R) && Unflagged(R)
            && |R| > 0 && R[|R| - 1] == Admit(n)
            && Step(L, st, n, byId).1[RecordKey(byId, n)] == AddedRetained
  {
    var R := Step(L, st, n, byId).0;
    var carved := CarveAll(L, n) + PiecesAll(L, n);
    CarvedWellFormed(L, n);
    RemoveFlaggedMembers(carved);
    assert WellFormed(R);
    StepCoverage(L, st, n, byId, 0);
    forall p ensures |Covering(R, p)| <= 1 {
      StepCoverage(L, st, n, byId, p);
      DisjointHoldsOnce(L, p);
    }
    HeldOnceDisjoint(R);
  }

  /** For records with start < end, the consolidated list is pairwise non-overlapping. */
  lemma {:induction false} FoldDisjoint(rows: seq<Record>, byId: bool)
    requires ValidRecords(rows)
    ensures WellFormed(Fold(rows, byId).0) && Disjoint(Fold(rows, byId).0)
    ensures Unflagged(Fold(rows, byId).0)
  {
    if rows != [] {
      var prefix := rows[..|rows| - 1];
      assert ValidRecords(prefix) by {
        forall r | r in prefix ensures r.start < r.end { assert r in rows; }
      }
      FoldDisjoint(prefix, byId);
      var prev := Fold(prefix, byId);
      StepKeepsDisjoint(prev.0, prev.1, rows[|rows| - 1], byId);
    }
  }
}
