/** The interval resolver of one entity: every record, in priority order, is folded into a
    working list; it always wins, so earlier rows it overlaps are removed, trimmed or split,
    and every original or derived interval gets a label in the status map. */
module Resolver {
  import opened Rows
  import opened Comparator

  // ---------------------------------------------------------------------------
  // What one fold step does to one existing row

  /** The existing row overlaps the incoming record. */
  predicate Hits(n: Record, e: Row)
  {
    Overlaps(n.start, n.end, e.start, e.end)
  }

  function MarkSubsumed(e: Row): Row
  {
    e.(status := RemovedFullySubsumed, removeFlag := true)
  }

  /** Left portion of a partial overlap starting at `os`: kept and cut back to `os` when
      something lies before the overlap, otherwise labelled and flagged for removal. */
  function TrimOrRemove(e: Row, os: int): Row
  {
    if os > e.start then e.(end := os, status := TrimmedEnd)
    else e.(status := RemovedOverlappedStart, removeFlag := true)
  }

  /** Right portion [oe, fEnd): a copy of the (already handled) left row without its flag. */
  function RightRemainder(left: Row, oe: int, fEnd: int): Row
  {
    left.(start := oe, end := fEnd, status := TrimmedStart, removeFlag := false)
  }

  /** The existing row `e` as it stands in the list after `n` has been checked against it. */
  function Kept(e: Row, n: Record): Row
  {
    if !Hits(n, e) then e
    else
      var ov := OverlapRange(n.start, n.end, e.start, e.end);
      if FullySubsumes(ov.0, ov.1, e.start, e.end) then MarkSubsumed(e)
      else TrimOrRemove(e, ov.0)
  }

  /** The right fragment (if any) that checking `n` against `e` appends to the list. */
  function Pieces(e: Row, n: Record): seq<Row>
  {
    if !Hits(n, e) then []
    else
      var ov := OverlapRange(n.start, n.end, e.start, e.end);
      if FullySubsumes(ov.0, ov.1, e.start, e.end) || ov.1 >= e.end then []
      else [RightRemainder(TrimOrRemove(e, ov.0), ov.1, e.end)]
  }

  /** The status writes made while checking `n` against `e`, in the order they happen. */
  function Relabel(st: Statuses, byId: bool, e: Row, n: Record): Statuses
  {
    if !Hits(n, e) then st
    else
      var ov := OverlapRange(n.start, n.end, e.start, e.end);
      if FullySubsumes(ov.0, ov.1, e.start, e.end) then st[RowKey(byId, e) := RemovedFullySubsumed]
      else
        var left := TrimOrRemove(e, ov.0);
        var st1 := st[RowKey(byId, e) := left.status];
        if ov.1 < e.end then st1[RowKey(byId, RightRemainder(left, ov.1, e.end)) := TrimmedStart]
        else st1
  }

  /** What the source promises of one existing row, in terms of the two intervals rather than
      of the overlap range: contained rows are removed without fragments; otherwise a left
      piece survives exactly when `e` starts before `n`, a right piece exists exactly when `e`
      ends after `n`, at least one of them survives, and neither overlaps `n`. */
  lemma Disposition(e: Row, n: Record)
    requires e.start < e.end && n.start < n.end && !e.removeFlag
    requires Hits(n, e)
    ensures n.start <= e.start && e.end <= n.end ==>
              Kept(e, n) == MarkSubsumed(e) && Pieces(e, n) == []
    ensures !(n.start <= e.start && e.end <= n.end) ==>
              && (e.start < n.start ==>
                    Kept(e, n) == e.(end := n.start, status := TrimmedEnd) && !Kept(e, n).removeFlag)
              && (n.start <= e.start ==>
                    Kept(e, n) == e.(status := RemovedOverlappedStart, removeFlag := true))
              && (n.end < e.end <==> |Pieces(e, n)| == 1)
              && (n.end < e.end ==>
                    Pieces(e, n)[0] == e.(start := n.end, status := TrimmedStart))
              && (!Kept(e, n).removeFlag || |Pieces(e, n)| == 1)
              && (!Kept(e, n).removeFlag ==> !Hits(n, Kept(e, n)))
              && (forall x :: x in Pieces(e, n) ==> !Hits(n, x) && x.payload == e.payload)
  {
    SubsumesIffContains(n.start, n.end, e.start, e.end);
  }

  // ---------------------------------------------------------------------------
  // One fold step over the whole list

  /** Every existing row after the check against `n`, in list order. */
  function CarveAll(L: seq<Row>, n: Record): (r: seq<Row>)
    ensures |r| == |L|
  {
    if L == [] then [] else CarveAll(L[..|L| - 1], n) + [Kept(L[|L| - 1], n)]
  }

  /** The right fragments appended during the step, in the order they are appended. They
      all start where `n` ends, so the loop visits them without effect. */
  function PiecesAll(L: seq<Row>, n: Record): seq<Row>
  {
    if L == [] then [] else PiecesAll(L[..|L| - 1], n) + Pieces(L[|L| - 1], n)
  }

  lemma {:induction false} PiecesAllStartAtEnd(L: seq<Row>, n: Record)
    ensures forall x :: x in PiecesAll(L, n) ==> x.start == n.end && !x.removeFlag && x.status == TrimmedStart
  {
    if L != [] {
      PiecesAllStartAtEnd(L[..|L| - 1], n);
    }
  }

  function RelabelAll(L: seq<Row>, n: Record, st: Statuses, byId: bool): Statuses
  {
    if L == [] then st else Relabel(RelabelAll(L[..|L| - 1], n, st, byId), byId, L[|L| - 1], n)
  }

  /** The list comprehension that drops the rows flagged for removal. */
  function RemoveFlagged(s: seq<Row>): seq<Row>
  {
    if s == [] then []
    else (if s[0].removeFlag then [] else [s[0]]) + RemoveFlagged(s[1..])
  }

  /** The comprehension keeps exactly the rows without the flag. */
  lemma {:induction false} RemoveFlaggedMembers(s: seq<Row>)
    ensures forall x :: x in RemoveFlagged(s) <==> x in s && !x.removeFlag
    ensures |RemoveFlagged(s)| <= |s|
  {
    if s != [] {
      RemoveFlaggedMembers(s[1..]);
      assert s == [s[0]] + s[1..];
    }
  }

  /** The comprehension keeps the relative order: filtering distributes over concatenation. */
  lemma {:induction false} RemoveFlaggedAppend(a: seq<Row>, b: seq<Row>)
    ensures RemoveFlagged(a + b) == RemoveFlagged(a) + RemoveFlagged(b)
  {
    if a == [] {
      assert a + b == b;
    } else {
      assert (a + b)[1..] == a[1..] + b;
      RemoveFlaggedAppend(a[1..], b);
    }
  }

  lemma {:induction false} RemoveFlaggedNone(s: seq<Row>)
    requires forall x :: x in s ==> !x.removeFlag
    ensures RemoveFlagged(s) == s
  {
    if s != [] {
      assert s[1..] == s[1..] && forall x :: x in s[1..] ==> x in s;
      RemoveFlaggedNone(s[1..]);
      assert s == [s[0]] + s[1..];
    }
  }

  /** One fold step: the working list and status map after `n` has been folded in. */
  function Step(L: seq<Row>, st: Statuses, n: Record, byId: bool): (seq<Row>, Statuses)
  {
    (RemoveFlagged(CarveAll(L, n) + PiecesAll(L, n)) + [Admit(n)],
     RelabelAll(L, n, st, byId)[RecordKey(byId, n) := AddedRetained])
  }

  /** The whole fold over records already in priority order, starting from an empty list
      and an empty status map. */
  function Fold(rows: seq<Record>, byId: bool): (seq<Row>, Statuses)
  {
    if rows == [] then ([], map[])
    else
      var prev := Fold(rows[..|rows| - 1], byId);
      Step(prev.0, prev.1, rows[|rows| - 1], byId)
  }

  // ---------------------------------------------------------------------------
  // The source's procedures

  /** Labels `accepted[i]` 'Removed (Fully Subsumed)' under its current bounds and flags it. */
  method HandleFullySubsumed(accepted: seq<Row>, i: nat, statuses: Statuses, byId: bool)
    returns (accepted': seq<Row>, statuses': Statuses)
    requires i < |accepted|
    ensures accepted' == accepted[i := MarkSubsumed(accepted[i])]
    ensures statuses' == statuses[RowKey(byId, accepted[i]) := RemovedFullySubsumed]
  {
    var interval := accepted[i].(status := RemovedFullySubsumed);
    statuses' := statuses[(IdPart(byId, interval.id), interval.start, interval.end) := interval.status];
    interval := interval.(removeFlag := true);
    accepted' := accepted[i := interval];
  }

  /** Trims or removes the left part of `accepted[i]` against the overlap [os, oe) and
      appends its right part as a new row when one remains. */
  method HandlePartialOverlap(accepted: seq<Row>, i: nat, os: int, oe: int, statuses: Statuses, byId: bool)
    returns (accepted': seq<Row>, statuses': Statuses)
    requires i < |accepted|
    ensures var e := accepted[i];
            var left := TrimOrRemove(e, os);
            accepted' == accepted[i := left] + (if oe < e.end then [RightRemainder(left, oe, e.end)] else [])
    ensures var e := accepted[i];
            var left := TrimOrRemove(e, os);
            var st1 := statuses[RowKey(byId, e) := left.status];
            statuses' == if oe < e.end then st1[RowKey(byId, RightRemainder(left, oe, e.end)) := TrimmedStart] else st1
  {
    var interval := accepted[i];
    var fStart, fEnd := interval.start, interval.end;
    var st := statuses;
    if os > fStart {
      var oldEnd := interval.end;
      interval := interval.(end := os, status := TrimmedEnd);
      st := st[(IdPart(byId, interval.id), fStart, oldEnd) := interval.status];
    } else {
      interval := interval.(status := RemovedOverlappedStart);
      st := st[(IdPart(byId, interval.id), fStart, fEnd) := interval.status];
      interval := interval.(removeFlag := true);
    }
    accepted' := accepted[i := interval];
    if oe < fEnd {
      var newRight := interval.(removeFlag := false);
      newRight := newRight.(start := oe, end := fEnd, status := TrimmedStart);
      st := st[(IdPart(byId, newRight.id), oe, fEnd) := newRight.status];
      accepted' := accepted' + [newRight];
    }
    statuses' := st;
  }

  /** The body of the fold loop for one record: check it against every row of the list,
      including the fragments appended while the loop runs, drop the flagged rows and
      append the record labelled 'Added/Retained'. */
  method FoldIn(accepted: seq<Row>, statuses: Statuses, newLine: Record, byId: bool)
    returns (accepted': seq<Row>, statuses': Statuses)
    ensures accepted' == Step(accepted, statuses, newLine, byId).0
    ensures statuses' == Step(accepted, statuses, newLine, byId).1
  {
    var finalList := accepted;
    var st := statuses;
    var i := 0;
    ghost var m := 0;
    while i < |finalList|
      invariant 0 <= i <= |finalList|
      invariant m == Min(i, |accepted|)
      invariant finalList == CarveAll(accepted[..m], newLine) + accepted[m..] + PiecesAll(accepted[..m], newLine)
      invariant st == RelabelAll(accepted[..m], newLine, statuses, byId)
      decreases |accepted| - m, |finalList| - i
    {
      ghost var before, stBefore := finalList, st;
      finalList, st := ResolveExisting(finalList, i, st, newLine, byId);
      m := Advance(accepted, newLine, statuses, byId, i, m, before, stBefore, finalList, st);
      i := i + 1;
    }
    assert finalList == CarveAll(accepted, newLine) + PiecesAll(accepted, newLine)
        && st == RelabelAll(accepted, newLine, statuses, byId) by {
      assert m == |accepted| && accepted[..m] == accepted && accepted[m..] == [];
    }
    finalList := RemoveFlagged(finalList);
    var added := Admit(newLine);
    st := st[RecordKey(byId, newLine) := added.status];
    finalList := finalList + [added];
    accepted', statuses' := finalList, st;
  }

  /** One pass of the inner loop: the row at position `i` is checked against the incoming
      record and, when they overlap, removed, trimmed or split. */
  method ResolveExisting(finalList: seq<Row>, i: nat, statuses: Statuses, newLine: Record, byId: bool)
    returns (finalList': seq<Row>, statuses': Statuses)
    requires i < |finalList|
    ensures finalList' == finalList[i := Kept(finalList[i], newLine)] + Pieces(finalList[i], newLine)
    ensures statuses' == Relabel(statuses, byId, finalList[i], newLine)
  {
    finalList', statuses' := finalList, statuses;
    var existing := finalList[i];
    var fStart, fEnd := existing.start, existing.end;
    if Overlaps(newLine.start, newLine.end, fStart, fEnd) {
      var ov := OverlapRange(newLine.start, newLine.end, fStart, fEnd);
      if FullySubsumes(ov.0, ov.1, fStart, fEnd) {
        finalList', statuses' := HandleFullySubsumed(finalList, i, statuses, byId);
      } else {
        finalList', statuses' := HandlePartialOverlap(finalList, i, ov.0, ov.1, statuses, byId);
      }
    } else {
      assert finalList[i := existing] == finalList;
    }
  }

  /** A row visited after the original ones is a right fragment, which `n` does not touch. */
  lemma PiecesAllAt(accepted: seq<Row>, m: nat, n: Record, list: seq<Row>, i: nat, st: Statuses, byId: bool)
    requires m == |accepted|
    requires list == CarveAll(accepted[..m], n) + accepted[m..] + PiecesAll(accepted[..m], n)
    requires m <= i < |list|
    ensures !Hits(n, list[i])
    ensures Kept(list[i], n) == list[i] && Pieces(list[i], n) == [] && Relabel(st, byId, list[i], n) == st
  {
    assert accepted[m..] == [];
    assert list[i] == PiecesAll(accepted[..m], n)[i - m];
    assert list[i] in PiecesAll(accepted[..m], n);
    PiecesAllStartAtEnd(accepted[..m], n);
  }

  /** The loop invariant of `FoldIn` survives one visit: an original row moves from the
      unvisited part to the carved part, a fragment is visited without effect. */
  lemma Advance(accepted: seq<Row>, n: Record, st0: Statuses, byId: bool, i: nat, m: nat,
                before: seq<Row>, stBefore: Statuses, after: seq<Row>, stAfter: Statuses)
    returns (m': nat)
    requires i < |before| && m == Min(i, |accepted|)
    requires before == CarveAll(accepted[..m], n) + accepted[m..] + PiecesAll(accepted[..m], n)
    requires stBefore == RelabelAll(accepted[..m], n, st0, byId)
    requires after == before[i := Kept(before[i], n)] + Pieces(before[i], n)
    requires stAfter == Relabel(stBefore, byId, before[i], n)
    ensures m' == Min(i + 1, |accepted|) && i + 1 <= |after|
    ensures after == CarveAll(accepted[..m'], n) + accepted[m'..] + PiecesAll(accepted[..m'], n)
    ensures stAfter == RelabelAll(accepted[..m'], n, st0, byId)
    ensures m < m' || (m == m' && |after| == |before|)
  {
    if i < |accepted| {
      assert before[i] == accepted[i] by {
        assert before[i] == (accepted[m..])[0];
      }
      StepOne(accepted, i, n, st0, byId, before, after);
      m' := m + 1;
    } else {
      m' := m;
      PiecesAllAt(accepted, m, n, before, i, stBefore, byId);
      assert before[i := before[i]] == before;
    }
  }

  /** The sequence bookkeeping of one visit to an original row `accepted[i]`. */
  lemma StepOne(accepted: seq<Row>, i: nat, n: Record, st0: Statuses, byId: bool,
                before: seq<Row>, after: seq<Row>)
    requires i < |accepted|
    requires before == CarveAll(accepted[..i], n) + accepted[i..] + PiecesAll(accepted[..i], n)
    requires after == before[i := Kept(accepted[i], n)] + Pieces(accepted[i], n)
    ensures after == CarveAll(accepted[..i + 1], n) + accepted[i + 1..] + PiecesAll(accepted[..i + 1], n)
    ensures RelabelAll(accepted[..i + 1], n, st0, byId) ==
              Relabel(RelabelAll(accepted[..i], n, st0, byId), byId, accepted[i], n)
  {
    var pre, pre1 := accepted[..i], accepted[..i + 1];
    var x, rest := accepted[i], accepted[i + 1..];
    assert pre1[..i] == pre && pre1[i] == x;
    assert before == CarveAll(pre, n) + [x] + rest + PiecesAll(pre, n) by {
      assert accepted[i..] == [x] + rest;
    }
    ReplaceAt(CarveAll(pre, n), x, rest, PiecesAll(pre, n), Kept(x, n));
    assert after == (CarveAll(pre, n) + [Kept(x, n)]) + rest + (PiecesAll(pre, n) + Pieces(x, n));
  }

  lemma ReplaceAt(a: seq<Row>, x: Row, b: seq<Row>, c: seq<Row>, y: Row)
    ensures (a + [x] + b + c)[|a| := y] == a + [y] + b + c
  {
  }

  /** Folds the records of one entity, in priority order, into a non-overlapping list. */
  method ProcessIntervalsForId(rows: seq<Record>, byId: bool)
    returns (finalList: seq<Row>, statuses: Statuses)
    ensures (finalList, statuses) == Fold(SortByPriority(rows), byId)
  {
    var ordered := SortByPriority(rows);
    finalList, statuses := [], map[];
    var k := 0;
    while k < |ordered|
      invariant 0 <= k <= |ordered|
      invariant finalList == Fold(ordered[..k], byId).0 && statuses == Fold(ordered[..k], byId).1
    {
      FoldPrefix(ordered, k, byId);
      finalList, statuses := FoldIn(finalList, statuses, ordered[k], byId);
      k := k + 1;
    }
    assert ordered[..k] == ordered;
  }

  lemma FoldPrefix(rows: seq<Record>, k: nat, byId: bool)
    requires k < |rows|
    ensures var prev := Fold(rows[..k], byId);
            Fold(rows[..k + 1], byId) == Step(prev.0, prev.1, rows[k], byId)
  {
    assert rows[..k + 1][..k] == rows[..k];
  }
}
