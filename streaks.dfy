/** `calculate_consecutive_days` (main.py:90-106): the longest run of
    consecutive calendar days in one author's ascending active dates. Dates are
    day numbers, so the day gap of `diff().dt.days` is a subtraction. */
module Streaks {
  import opened Wrappers
  import opened Seqs

  /** The Series returned for one author: run length, first and last day. */
  datatype Streak = Streak(days: nat, start: Option<int>, end: Option<int>)

  /** `consecutive_days.fillna(0) != 1`: true where a new run begins. The first
      gap is NaN and is filled with 0, so the first date always begins a run. */
  function Flags(ds: seq<int>): (fl: seq<bool>)
    ensures |fl| == |ds|
  {
    seq(|ds|, i requires 0 <= i < |ds| => i == 0 || ds[i] - ds[i - 1] != 1)
  }

  /** `cumsum()` of a boolean series. */
  function CumSum(fl: seq<bool>): (ids: seq<nat>)
    ensures |ids| == |fl|
  {
    if fl == [] then []
    else
      var p := CumSum(fl[..|fl| - 1]);
      p + [(if p == [] then 0 else p[|p| - 1]) + (if fl[|fl| - 1] then 1 else 0)]
  }

  /** `group_id`: the run number of every date. */
  function RunIds(ds: seq<int>): (ids: seq<nat>)
    ensures |ids| == |ds|
  {
    CumSum(Flags(ds))
  }

  /** Position whose run id `value_counts().idxmax()` picks among ids[..n]: the
      first run with the largest count. */
  function BestPos(ids: seq<nat>, n: nat): (j: nat)
    requires 1 <= n <= |ids|
    ensures j < n
  {
    if n == 1 then 0
    else
      var j := BestPos(ids, n - 1);
      if Count(ids, ids[n - 1]) > Count(ids, ids[j]) then n - 1 else j
  }

  /** calculate_consecutive_days on one author's dates. */
  function LongestStreak(ds: seq<int>): Streak {
    if |ds| > 1 then
      var ids := RunIds(ds);
      var best := ids[BestPos(ids, |ids|)];
      Streak(Count(ids, best), Some(ds[FirstIndex(ids, best)]), Some(ds[LastIndex(ids, best)]))
    else if |ds| == 1 then
      Streak(1, Some(ds[0]), Some(ds[0]))
    else
      Streak(0, None, None)
  }

  // ---------------------------------------------------------------- reference

  /** ds[a..b+1] is a run of consecutive calendar days. */
  predicate ConsecutiveSpan(ds: seq<int>, a: nat, b: nat) {
    a <= b < |ds| && forall i :: a < i <= b ==> ds[i] - ds[i - 1] == 1
  }

  // ---------------------------------------------------------------- run ids

  lemma {:induction false} CumSumAt(fl: seq<bool>, i: nat)
    requires i < |fl|
    ensures CumSum(fl)[i] == (if i == 0 then 0 else CumSum(fl)[i - 1]) + (if fl[i] then 1 else 0)
    decreases |fl|
  {
    var p := fl[..|fl| - 1];
    if i < |fl| - 1 {
      CumSumAt(p, i);
      assert CumSum(fl)[..|p|] == CumSum(p);
    } else if i > 0 {
      assert CumSum(fl)[i - 1] == CumSum(p)[i - 1];
    }
  }

  /** A run id goes up by one exactly where a new run begins. */
  lemma IdsStep(ds: seq<int>, i: nat)
    requires i < |ds|
    ensures i == 0 ==> RunIds(ds)[0] == 1
    ensures i > 0 ==> RunIds(ds)[i] == RunIds(ds)[i - 1] + (if ds[i] - ds[i - 1] != 1 then 1 else 0)
  {
    CumSumAt(Flags(ds), i);
  }

  predicate Ascending(ids: seq<nat>) {
    forall i, j :: 0 <= i <= j < |ids| ==> ids[i] <= ids[j]
  }

  lemma {:induction false} IdsMonotone(ds: seq<int>, i: nat, j: nat)
    requires i <= j < |ds|
    ensures RunIds(ds)[i] <= RunIds(ds)[j]
    decreases j - i
  {
    if i < j {
      IdsStep(ds, j);
      IdsMonotone(ds, i, j - 1);
    }
  }

  lemma IdsOrder(ds: seq<int>, i: nat, j: nat)
    requires i < |ds| && j < |ds|
    ensures i <= j ==> RunIds(ds)[i] <= RunIds(ds)[j]
  {
    if i <= j {
      IdsMonotone(ds, i, j);
    }
  }

  lemma IdsAscending(ds: seq<int>)
    ensures Ascending(RunIds(ds))
  {
    forall i, j | 0 <= i <= j < |ds| ensures RunIds(ds)[i] <= RunIds(ds)[j] {
      IdsMonotone(ds, i, j);
    }
  }

  /** Dates sharing a run id are consecutive days. */
  lemma SameIdIsSpan(ds: seq<int>, a: nat, b: nat)
    requires a <= b < |ds| && RunIds(ds)[a] == RunIds(ds)[b]
    ensures ConsecutiveSpan(ds, a, b)
  {
    forall i | a < i <= b ensures ds[i] - ds[i - 1] == 1 {
      IdsMonotone(ds, a, i - 1);
      IdsMonotone(ds, i, b);
      IdsStep(ds, i);
    }
  }

  /** A run of consecutive days shares one run id. */
  lemma {:induction false} SpanSameId(ds: seq<int>, a: nat, b: nat)
    requires ConsecutiveSpan(ds, a, b)
    ensures RunIds(ds)[a] == RunIds(ds)[b]
    decreases b - a
  {
    if a < b {
      assert ConsecutiveSpan(ds, a, b - 1);
      SpanSameId(ds, a, b - 1);
      IdsStep(ds, b);
    }
  }

  /** The dates of one run id are the positions from its first to its last. */
  lemma IdPositions(ids: seq<nat>, g: nat)
    requires Ascending(ids) && g in ids
    ensures forall i :: 0 <= i < |ids| ==> (ids[i] == g <==> FirstIndex(ids, g) <= i <= LastIndex(ids, g))
    ensures Count(ids, g) == LastIndex(ids, g) - FirstIndex(ids, g) + 1
  {
    var lo, hi := FirstIndex(ids, g), LastIndex(ids, g);
    assert lo <= hi;
    CountRange(ids, g, lo, hi);
  }

  /** The run picked has the largest count, and every earlier run a smaller one. */
  lemma {:induction false} BestPosIsMax(ids: seq<nat>, n: nat)
    requires Ascending(ids) && 1 <= n <= |ids|
    ensures forall i :: 0 <= i < n ==> Count(ids, ids[i]) <= Count(ids, ids[BestPos(ids, n)])
    ensures forall i :: 0 <= i < n && ids[i] < ids[BestPos(ids, n)] ==> Count(ids, ids[i]) < Count(ids, ids[BestPos(ids, n)])
    decreases n
  {
    if n > 1 {
      BestPosIsMax(ids, n - 1);
    }
  }

  // ---------------------------------------------------------------- the result

  /** The first and last position of the run LongestStreak reports. */
  function RunStart(ds: seq<int>): (lo: nat)
    requires |ds| >= 1
    ensures lo < |ds|
  {
    if |ds| > 1 then
      var ids := RunIds(ds);
      FirstIndex(ids, ids[BestPos(ids, |ids|)])
    else 0
  }

  function RunEnd(ds: seq<int>): (hi: nat)
    requires |ds| >= 1
    ensures hi < |ds|
  {
    if |ds| > 1 then
      var ids := RunIds(ds);
      LastIndex(ids, ids[BestPos(ids, |ids|)])
    else 0
  }

  /** With no dates the result is (0, None, None), with one date d it is (1, d, d). */
  lemma StreakSmall(ds: seq<int>)
    requires |ds| <= 1
    ensures |ds| == 0 ==> LongestStreak(ds) == Streak(0, None, None)
    ensures |ds| == 1 ==> LongestStreak(ds) == Streak(1, Some(ds[0]), Some(ds[0]))
  {
  }

  /** The reported run is a run of consecutive days, reported by its length and
      its first and last day. */
  lemma StreakIsRun(ds: seq<int>)
    requires |ds| >= 1
    ensures RunStart(ds) <= RunEnd(ds)
    ensures ConsecutiveSpan(ds, RunStart(ds), RunEnd(ds))
    ensures LongestStreak(ds) == Streak(RunEnd(ds) - RunStart(ds) + 1, Some(ds[RunStart(ds)]), Some(ds[RunEnd(ds)]))
  {
    if |ds| > 1 {
      var ids := RunIds(ds);
      var best := ids[BestPos(ids, |ids|)];
      IdsAscending(ds);
      IdPositions(ids, best);
      SameIdIsSpan(ds, RunStart(ds), RunEnd(ds));
    }
  }

  /** A run of consecutive days lies inside the dates of one run id. */
  lemma SpanInsideRun(ds: seq<int>, a: nat, b: nat)
    requires ConsecutiveSpan(ds, a, b)
    ensures var ids := RunIds(ds);
            b - a + 1 <= Count(ids, ids[a]) && FirstIndex(ids, ids[a]) <= a
  {
    var ids := RunIds(ds);
    IdsAscending(ds);
    SpanSameId(ds, a, b);
    IdPositions(ids, ids[a]);
  }

  /** The reported length is the count of the chosen run id. */
  lemma StreakCount(ds: seq<int>)
    requires |ds| > 1
    ensures var ids := RunIds(ds);
            RunEnd(ds) - RunStart(ds) + 1 == Count(ids, ids[BestPos(ids, |ids|)])
  {
    var ids := RunIds(ds);
    IdsAscending(ds);
    IdPositions(ids, ids[BestPos(ids, |ids|)]);
  }

  /** No run of consecutive days is longer than the reported one. */
  lemma StreakIsLongest(ds: seq<int>, a: nat, b: nat)
    requires |ds| >= 1 && ConsecutiveSpan(ds, a, b)
    ensures b - a <= RunEnd(ds) - RunStart(ds)
  {
    if |ds| > 1 {
      var ids := RunIds(ds);
      SpanInsideRun(ds, a, b);
      StreakCount(ds);
      IdsAscending(ds);
      BestPosIsMax(ids, |ids|);
    }
  }

  /** The id LongestStreak picks, compared with the id at position i. */
  lemma BestAt(ds: seq<int>, i: nat)
    requires 1 < |ds| && i < |ds|
    ensures var ids := RunIds(ds);
            var best := ids[BestPos(ids, |ids|)];
            && Count(ids, ids[i]) <= Count(ids, best)
            && (ids[i] < best ==> Count(ids, ids[i]) < Count(ids, best))
  {
    var ids := RunIds(ds);
    IdsAscending(ds);
    BestPosIsMax(ids, |ids|);
  }

  /** A run as long as the reported one does not start before it. */
  lemma StreakIsEarliest(ds: seq<int>, a: nat, b: nat)
    requires |ds| >= 1 && ConsecutiveSpan(ds, a, b) && b - a == RunEnd(ds) - RunStart(ds)
    ensures RunStart(ds) <= a
  {
    if |ds| > 1 {
      var ids := RunIds(ds);
      var best := ids[BestPos(ids, |ids|)];
      var lo := RunStart(ds);
      assert lo == FirstIndex(ids, best);
      SpanInsideRun(ds, a, b);
      StreakCount(ds);
      BestAt(ds, a);
      IdsOrder(ds, a, lo);
    }
  }

  /** The reported run cannot be extended on either side. */
  lemma StreakIsMaximal(ds: seq<int>)
    requires |ds| >= 1
    ensures RunStart(ds) > 0 ==> ds[RunStart(ds)] - ds[RunStart(ds) - 1] != 1
    ensures RunEnd(ds) < |ds| - 1 ==> ds[RunEnd(ds) + 1] - ds[RunEnd(ds)] != 1
  {
    if |ds| > 1 {
      var ids := RunIds(ds);
      var lo, hi := RunStart(ds), RunEnd(ds);
      if lo > 0 {
        IdsStep(ds, lo);
      }
      if hi < |ds| - 1 {
        IdsStep(ds, hi + 1);
      }
    }
  }

  /** The run spans length - 1 days, and 1 <= length <= number of dates. */
  lemma {:induction false} SpanWidth(ds: seq<int>, a: nat, b: nat)
    requires ConsecutiveSpan(ds, a, b)
    ensures ds[b] - ds[a] == b - a
    decreases b - a
  {
    if a < b {
      assert ConsecutiveSpan(ds, a, b - 1);
      SpanWidth(ds, a, b - 1);
    }
  }

  lemma StreakBounds(ds: seq<int>)
    requires |ds| >= 1
    ensures 1 <= LongestStreak(ds).days <= |ds|
    ensures LongestStreak(ds).end.value - LongestStreak(ds).start.value == LongestStreak(ds).days - 1
  {
    StreakIsRun(ds);
    SpanWidth(ds, RunStart(ds), RunEnd(ds));
  }

  /** Two runs of three days: the earlier one is reported. */
  lemma StreakTieExample(ds: seq<int>)
    requires ds == [10, 11, 12, 20, 21, 22, 30]
    ensures LongestStreak(ds) == Streak(3, Some(10), Some(12))
  {
    assert ConsecutiveSpan(ds, 0, 2);
    StreakIsRun(ds);
    StreakIsLongest(ds, 0, 2);
    var lo, hi := RunStart(ds), RunEnd(ds);
    assert ds[3] - ds[2] != 1 && ds[6] - ds[5] != 1;
    assert hi - lo == 2;
    StreakIsEarliest(ds, 0, 2);
  }
}
