/**
 * Half-open byte ranges and sorted lists of disjoint ranges, as used by the
 * master to record which bytes of a transferred file are still missing.
 *
 * The repository's own `ranges` helper module is not part of this model; its
 * two operations are given here by their contracts (interval intersection,
 * and removal of an interval from a sorted disjoint list). The bodies below
 * are one way of meeting those contracts.
 */
module Ranges {
  import opened Wrappers

  /** The integers `start <= x < stop`, like Python's `range(start, stop)`. */
  datatype Range = Range(start: int, stop: int) {
    /** Python's truthiness of a range: false exactly when it is empty. */
    predicate IsEmpty() { stop <= start }

    function Length(): nat { if stop <= start then 0 else stop - start }

    predicate Contains(x: int) { start <= x < stop }

    /** Every position of this range is a position of `other`. */
    predicate Within(other: Range) { IsEmpty() || (other.start <= start && stop <= other.stop) }
  }

  /** The positions covered by some range of `m`. */
  predicate Missing(m: seq<Range>, x: int)
  {
    exists k :: 0 <= k < |m| && m[k].Contains(x)
  }

  /** Ascending, pairwise disjoint and free of empty ranges. */
  predicate WellFormed(m: seq<Range>)
  {
    && (forall k :: 0 <= k < |m| ==> !m[k].IsEmpty())
    && (forall i, j :: 0 <= i < j < |m| ==> m[i].stop <= m[j].start)
  }

  /** Intersection of two ranges; an empty result stands for "no overlap". */
  function Intersect(a: Range, b: Range): (r: Range)
    ensures forall x :: r.Contains(x) <==> a.Contains(x) && b.Contains(x)
    ensures r.Within(a) && r.Within(b)
  {
    Range(Max(a.start, b.start), Min(a.stop, b.stop))
  }

  /** The parts of `a` that lie outside `e`, in ascending order. */
  function Remainder(a: Range, e: Range): (r: seq<Range>)
    requires !a.IsEmpty() && e.start <= e.stop
    ensures WellFormed(r)
    ensures forall k :: 0 <= k < |r| ==> a.start <= r[k].start && r[k].stop <= a.stop
    ensures forall x :: Missing(r, x) <==> a.Contains(x) && !e.Contains(x)
  {
    var before := if a.start < e.start then [Range(a.start, Min(a.stop, e.start))] else [];
    var after := if e.stop < a.stop then [Range(Max(a.start, e.stop), a.stop)] else [];
    assert forall x :: Missing(before, x) <==> a.Contains(x) && x < e.start by {
      forall x ensures Missing(before, x) <==> a.Contains(x) && x < e.start {
        if a.Contains(x) && x < e.start { assert before[0].Contains(x); }
      }
    }
    assert forall x :: Missing(after, x) <==> a.Contains(x) && e.stop <= x by {
      forall x ensures Missing(after, x) <==> a.Contains(x) && e.stop <= x {
        if a.Contains(x) && e.stop <= x { assert after[0].Contains(x); }
      }
    }
    MissingConcat(before, after);
    before + after
  }

  /** Removes the positions of `e` from the sorted disjoint list `m`. */
  function Exclude(m: seq<Range>, e: Range): (r: seq<Range>)
    requires WellFormed(m) && e.start <= e.stop
    ensures WellFormed(r)
    ensures forall k :: 0 <= k < |r| ==> m != [] && m[0].start <= r[k].start
    ensures forall x :: Missing(r, x) <==> Missing(m, x) && !e.Contains(x)
  {
    if m == [] then []
    else
      var head := Remainder(m[0], e);
      var tail := Exclude(m[1..], e);
      assert forall k :: 0 <= k < |tail| ==> m[0].stop <= tail[k].start by {
        if |m| > 1 { assert m[0].stop <= m[1].start; }
      }
      MissingConcat(head, tail);
      MissingCons(m);
      SortedConcat(head, tail, m[0].stop);
      head + tail
  }

  lemma MissingConcat(a: seq<Range>, b: seq<Range>)
    ensures forall x :: Missing(a + b, x) <==> Missing(a, x) || Missing(b, x)
  {
    forall x ensures Missing(a + b, x) <==> Missing(a, x) || Missing(b, x) {
      if Missing(a + b, x) {
        var k :| 0 <= k < |a + b| && (a + b)[k].Contains(x);
        if k < |a| { assert a[k] == (a + b)[k]; } else { assert b[k - |a|] == (a + b)[k]; }
      }
      if Missing(a, x) {
        var k :| 0 <= k < |a| && a[k].Contains(x);
        assert (a + b)[k] == a[k];
      }
      if Missing(b, x) {
        var k :| 0 <= k < |b| && b[k].Contains(x);
        assert (a + b)[|a| + k] == b[k];
      }
    }
  }

  lemma MissingCons(m: seq<Range>)
    requires m != []
    ensures forall x :: Missing(m, x) <==> m[0].Contains(x) || Missing(m[1..], x)
  {
    assert m == [m[0]] + m[1..];
    MissingConcat([m[0]], m[1..]);
    forall x ensures Missing([m[0]], x) <==> m[0].Contains(x) {
      if m[0].Contains(x) { assert [m[0]][0].Contains(x); }
    }
  }

  lemma SortedConcat(a: seq<Range>, b: seq<Range>, bound: int)
    requires WellFormed(a) && WellFormed(b)
    requires forall k :: 0 <= k < |a| ==> a[k].stop <= bound
    requires forall k :: 0 <= k < |b| ==> bound <= b[k].start
    ensures WellFormed(a + b)
  {
    var c := a + b;
    forall i, j | 0 <= i < j < |c| ensures c[i].stop <= c[j].start {
      if j < |a| { assert c[i] == a[i] && c[j] == a[j]; }
      else if i >= |a| { assert c[i] == b[i - |a|] && c[j] == b[j - |a|]; }
      else { assert c[i] == a[i] && c[j] == b[j - |a|]; }
    }
  }
}
