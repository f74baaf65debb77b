/** The interval comparator (overlap test, overlap range, subsumption test) and the
    priority ranker that fixes the order in which records are folded in. */
module Comparator {
  import opened Rows

  function Max(a: int, b: int): int { if a >= b then a else b }

  function Min(a: int, b: int): int { if a <= b then a else b }

  /** [sa, ea) and [sb, eb) overlap, as the source's negated disjunction states it. */
  predicate Overlaps(sa: int, ea: int, sb: int, eb: int)
  {
    !(ea <= sb || sa >= eb)
  }

  lemma OverlapsSymmetric(sa: int, ea: int, sb: int, eb: int)
    ensures Overlaps(sa, ea, sb, eb) == Overlaps(sb, eb, sa, ea)
  {
  }

  /** For non-empty intervals the test is exactly "some day lies in both". */
  predicate InBoth(p: int, sa: int, ea: int, sb: int, eb: int)
  {
    sa <= p < ea && sb <= p < eb
  }

  lemma OverlapsIffSharedDay(sa: int, ea: int, sb: int, eb: int)
    requires sa < ea && sb < eb
    ensures Overlaps(sa, ea, sb, eb) <==> exists p :: InBoth(p, sa, ea, sb, eb)
  {
    if Overlaps(sa, ea, sb, eb) {
      assert InBoth(Max(sa, sb), sa, ea, sb, eb);
    }
  }

  /** For non-empty intervals the test is max(starts) < min(ends). */
  lemma OverlapsIffMaxBelowMin(sa: int, ea: int, sb: int, eb: int)
    requires sa < ea && sb < eb
    ensures Overlaps(sa, ea, sb, eb) <==> Max(sa, sb) < Min(ea, eb)
  {
  }

  /** The overlap of two intervals: the later start and the earlier end. The source only
      calls it on overlapping intervals; on those the range is non-empty and lies in both. */
  function OverlapRange(sa: int, ea: int, sb: int, eb: int): (r: (int, int))
    ensures sa <= r.0 && sb <= r.0 && (r.0 == sa || r.0 == sb)
    ensures r.1 <= ea && r.1 <= eb && (r.1 == ea || r.1 == eb)
    ensures sa < ea && sb < eb && Overlaps(sa, ea, sb, eb) ==> r.0 < r.1
  {
    (Max(sa, sb), Min(ea, eb))
  }

  /** The overlap [os, oe) covers all of [s, e). */
  predicate FullySubsumes(os: int, oe: int, s: int, e: int)
  {
    os <= s && oe >= e
  }

  /** Applied to the overlap of the new interval [ns, ne) with [es, ee), the subsumption
      test holds exactly when the new interval contains the existing one. */
  lemma SubsumesIffContains(ns: int, ne: int, es: int, ee: int)
    ensures var ov := OverlapRange(ns, ne, es, ee);
            FullySubsumes(ov.0, ov.1, es, ee) <==> ns <= es && ee <= ne
  {
  }

  // ---------------------------------------------------------------------------
  // Priority ranker

  // The default priority key itself, PriorityLatestStart, is declared with the rows, because
  // every row carries it in its 'priority' column.

  /** Lexicographic "strictly less" on key pairs, as tuples compare. */
  predicate KeyLess(a: (int, int), b: (int, int))
  {
    a.0 < b.0 || (a.0 == b.0 && a.1 < b.1)
  }

  predicate KeyLessEq(a: (int, int), b: (int, int))
  {
    !KeyLess(b, a)
  }

  /** Records with earlier starts come first; among equal starts the later end comes first,
      so a shorter record with the same start is folded in after (and carves) a longer one. */
  lemma PriorityOrder(a: Record, b: Record)
    ensures a.start < b.start ==> KeyLess(PriorityLatestStart(a), PriorityLatestStart(b))
    ensures a.start == b.start ==>
              (KeyLess(PriorityLatestStart(a), PriorityLatestStart(b)) <==> a.end > b.end)
    ensures KeyLessEq(PriorityLatestStart(a), PriorityLatestStart(b)) <==>
              a.start < b.start || (a.start == b.start && a.end >= b.end)
  {
  }

  predicate SortedByPriority(s: seq<Record>)
  {
    forall i, j :: 0 <= i < j < |s| ==> KeyLessEq(PriorityLatestStart(s[i]), PriorityLatestStart(s[j]))
  }

  /** Inserts `x` after every element whose key is not greater than its own. */
  function InsertByPriority(x: Record, s: seq<Record>): (r: seq<Record>)
    requires SortedByPriority(s)
    ensures SortedByPriority(r)
    ensures multiset(r) == multiset(s) + multiset{x}
    ensures |r| == |s| + 1
  {
    if s == [] then [x]
    else if KeyLess(PriorityLatestStart(x), PriorityLatestStart(s[0])) then
      SortedCons(x, s);
      [x] + s
    else
      var tail := InsertByPriority(x, s[1..]);
      assert s == [s[0]] + s[1..];
      forall y | y in tail
        ensures KeyLessEq(PriorityLatestStart(s[0]), PriorityLatestStart(y))
      {
        assert y in multiset(tail);
        if y != x {
          assert y in multiset(s[1..]);
          var k :| 0 <= k < |s[1..]| && s[1..][k] == y;
          assert s[k + 1] == y;
        }
      }
      SortedCons(s[0], tail);
      [s[0]] + tail
  }

  lemma SortedCons(h: Record, t: seq<Record>)
    requires SortedByPriority(t)
    requires forall y :: y in t ==> KeyLessEq(PriorityLatestStart(h), PriorityLatestStart(y))
    ensures SortedByPriority([h] + t)
  {
    var s := [h] + t;
    forall i, j | 0 <= i < j < |s|
      ensures KeyLessEq(PriorityLatestStart(s[i]), PriorityLatestStart(s[j]))
    {
      if i == 0 {
        assert s[j] == t[j - 1];
        assert s[j] in t;
      } else {
        assert s[i] == t[i - 1] && s[j] == t[j - 1];
      }
    }
  }

  /** The order `sort_values(by='priority')` produces: ascending priority key. */
  function SortByPriority(s: seq<Record>): (r: seq<Record>)
    ensures SortedByPriority(r)
    ensures multiset(r) == multiset(s)
    ensures |r| == |s|
  {
    if s == [] then []
    else
      assert s == s[..|s| - 1] + [s[|s| - 1]];
      InsertByPriority(s[|s| - 1], SortByPriority(s[..|s| - 1]))
  }

  /** In fold order, starts never decrease, and among equal starts ends never increase. */
  lemma FoldOrder(rows: seq<Record>, i: nat, j: nat)
    requires i < j < |rows|
    ensures var s := SortByPriority(rows);
            s[i].start <= s[j].start && (s[i].start == s[j].start ==> s[i].end >= s[j].end)
  {
    var s := SortByPriority(rows);
    PriorityOrder(s[i], s[j]);
  }
}
