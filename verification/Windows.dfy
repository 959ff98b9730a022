/**
 * Fixed windows in the abstract: admissions grouped into windows whose starts are at least
 * `width` apart, at most `quota` of them a window. Both limiter paths are shown to be of this form.
 */
module Windows {
  import opened Prelude

  /** An admitted call: when it was counted, in which window, and its number in that window. */
  datatype Admission = Admission(time: int, window: nat, ordinal: int)

  ghost predicate Grouped(log: map<nat, Admission>, starts: seq<int>, quota: nat) {
    && (forall i | i in log :: log[i].window < |starts| && 1 <= log[i].ordinal <= quota)
    && (forall i, j | i in log && j in log && log[i].window == log[j].window && log[i].ordinal == log[j].ordinal ::
          i == j)
  }

  ghost predicate Spaced(log: map<nat, Admission>, starts: seq<int>, width: int) {
    && (forall i | i in log && log[i].window < |starts| :: starts[log[i].window] <= log[i].time)
    && (forall i | i in log && log[i].window + 1 < |starts| :: log[i].time <= starts[log[i].window + 1])
    && (forall v, w | 0 <= v < w < |starts| && w == v + 1 :: starts[v] + width <= starts[w])
  }

  function InWindow(log: map<nat, Admission>, w: nat): set<nat> {
    set i | i in log && log[i].window == w
  }

  function InInterval(log: map<nat, Admission>, from: int, to: int): set<nat> {
    set i | i in log && from <= log[i].time < to
  }

  lemma QuotaPerWindow(log: map<nat, Admission>, starts: seq<int>, quota: nat, w: nat)
    requires Grouped(log, starts, quota)
    ensures |InWindow(log, w)| <= quota
  {
    var number := map i | i in log :: log[i].ordinal;
    NumberedSetBound(InWindow(log, w), number, quota);
  }

  lemma SplitSize(s: set<nat>, part: set<nat>)
    requires part <= s
    ensures |s| == |s - part| + |part|
  {
  }

  lemma OneMore(before: int, last: int, n: int, quota: int)
    requires before <= (n - 1) * quota && last <= quota
    ensures before + last <= n * quota
  {
  }

  /** n windows in a row admit at most n quotas. */
  lemma {:induction false} QuotaPerRange(log: map<nat, Admission>, quota: nat, s: set<nat>, lo: nat, n: nat)
    requires forall w: nat :: |InWindow(log, w)| <= quota
    requires forall i | i in s :: i in log && lo <= log[i].window < lo + n
    ensures |s| <= n * quota
  {
    if n == 0 {
      assert s == {};
    } else {
      var last := s * InWindow(log, lo + n - 1);
      QuotaPerRange(log, quota, s - last, lo, n - 1);
      SubsetSize(last, InWindow(log, lo + n - 1));
      SplitSize(s, last);
      OneMore(|s - last|, |last|, n, quota);
    }
  }

  lemma OneLess(n: int, width: int)
    ensures n * width == (n - 1) * width + width
  {
  }

  lemma FewerWidths(a: int, b: int, width: int)
    requires 0 < width && a * width < b * width
    ensures a < b
  {
  }

  lemma {:induction false} StartsApart(starts: seq<int>, width: int, i: nat, j: nat)
    requires i <= j < |starts|
    requires forall v, w | 0 <= v < w < |starts| && w == v + 1 :: starts[v] + width <= starts[w]
    ensures starts[i] + (j - i) * width <= starts[j]
  {
    if i < j {
      StartsApart(starts, width, i, j - 1);
      OneLess(j - i, width);
    }
  }

  lemma {:induction false} EarliestWindow(log: map<nat, Admission>, s: set<nat>) returns (first: nat)
    requires s != {} && forall i | i in s :: i in log
    ensures first in s && forall i | i in s :: log[first].window <= log[i].window
  {
    first :| first in s;
    if s != {first} {
      var other := EarliestWindow(log, s - {first});
      if log[other].window < log[first].window {
        first := other;
      }
    }
  }

  /** Two windows that both admit inside an interval of k widths are at most k windows apart. */
  lemma ReachOfInterval(log: map<nat, Admission>, starts: seq<int>, width: int, quota: nat, from: int, k: nat,
                        i: nat, j: nat)
    requires 0 < width && Grouped(log, starts, quota) && Spaced(log, starts, width)
    requires i in InInterval(log, from, from + k * width) && j in InInterval(log, from, from + k * width)
    requires log[i].window <= log[j].window
    ensures log[j].window <= log[i].window + k
  {
    var v, w := log[i].window, log[j].window;
    if v < w {
      StartsApart(starts, width, v + 1, w);
      FewerWidths(w - v - 1, k, width);
    }
  }

  /**
   * The fixed-window bound: a half-open interval of k widths holds at most (k + 1) * quota admissions.
   */
  lemma IntervalBound(log: map<nat, Admission>, starts: seq<int>, width: int, quota: nat, from: int, k: nat)
    requires 0 < width && Grouped(log, starts, quota) && Spaced(log, starts, width)
    ensures |InInterval(log, from, from + k * width)| <= (k + 1) * quota
  {
    var s := InInterval(log, from, from + k * width);
    if s != {} {
      var first := EarliestWindow(log, s);
      forall i | i in s ensures log[first].window <= log[i].window < log[first].window + (k + 1) {
        ReachOfInterval(log, starts, width, quota, from, k, first, i);
      }
      forall w: nat ensures |InWindow(log, w)| <= quota {
        QuotaPerWindow(log, starts, quota, w);
      }
      QuotaPerRange(log, quota, s, log[first].window, k + 1);
    }
  }
}
