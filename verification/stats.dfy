/**
 * The dashboard statistics of the backend: counts over the task collection,
 * the completion rate and rounded averages. Numbers are exact reals; the
 * rounding of `Number(x.toFixed(d))` is `RoundTo`.
 */
module Stats {
  import opened Wrappers
  import opened TaskDoc

  const MS_PER_HOUR: int := 3_600_000

  function Pow10(d: nat): (p: nat)
    ensures p >= 1
  {
    if d == 0 then 1 else 10 * Pow10(d - 1)
  }

  /** `x` scaled by 10^digits and rounded to the nearest integer, ties away
      from zero. */
  function Units(x: real, digits: nat): int {
    var p := Pow10(digits) as real;
    if x >= 0.0 then (x * p + 0.5).Floor else -(-x * p + 0.5).Floor
  }

  /** `Number(x.toFixed(digits))` on exact numbers: the multiple of
      10^-digits nearest to `x`, ties away from zero. */
  function RoundTo(x: real, digits: nat): (r: real)
    ensures x >= 0.0 ==> r >= 0.0
    ensures x <= 0.0 ==> r <= 0.0
  {
    Units(x, digits) as real / Pow10(digits) as real
  }

  lemma ScaledWithin(x: real, p: int, lo: int, hi: int)
    requires p >= 1 && lo as real <= x <= hi as real
    ensures var y := x * p as real;
      lo * p <= (y + 0.5).Floor <= hi * p
  {
    assert lo as real * p as real <= x * p as real <= hi as real * p as real;
  }

  lemma UnitsWithin(x: real, digits: nat, lo: int, hi: int)
    requires lo as real <= x <= hi as real
    ensures lo * Pow10(digits) <= Units(x, digits) <= hi * Pow10(digits)
  {
    RoundedWithin(x, Pow10(digits), Units(x, digits), lo, hi);
  }

  /** The rounding of `x * p`, in either direction, stays within the scaled
      bounds. */
  lemma RoundedWithin(x: real, p: int, n: int, lo: int, hi: int)
    requires p >= 1 && lo as real <= x <= hi as real
    requires x >= 0.0 ==> n == (x * p as real + 0.5).Floor
    requires x < 0.0 ==> n == -(-x * p as real + 0.5).Floor
    ensures lo * p <= n <= hi * p
  {
    if x >= 0.0 {
      ScaledWithin(x, p, lo, hi);
    } else {
      ScaledWithin(-x, p, -hi, -lo);
      NegatedWithin(-n, p, lo, hi);
    }
  }

  /** The integer is within half a unit of the scaled number; a tie goes to
      the integer farther from zero. */
  lemma UnitsNearest(x: real, digits: nat)
    ensures var y := x * Pow10(digits) as real;
      var n := Units(x, digits);
      && (x >= 0.0 ==> y - 0.5 < n as real <= y + 0.5)
      && (x < 0.0 ==> y - 0.5 <= n as real < y + 0.5)
  {
  }

  lemma NegatedWithin(f: int, p: int, lo: int, hi: int)
    requires -hi * p <= f <= -lo * p
    ensures lo * p <= -f <= hi * p
  {
  }

  lemma MulCancel(a: real, b: real, k: real)
    requires k > 0.0 && a * k <= b * k
    ensures a <= b
  {
  }

  /** A quotient by a positive number stays between the bounds it was
      scaled from. */
  lemma QuotientWithin(s: real, n: real, lo: real, hi: real)
    requires n > 0.0 && lo * n <= s <= hi * n
    ensures lo <= s / n <= hi
  {
    var q := s / n;
    assert q * n == s;
    MulCancel(lo, q, n);
    MulCancel(q, hi, n);
  }

  lemma IntBoundsAsReal(n: int, k: int, lo: int, hi: int)
    requires lo * k <= n <= hi * k
    ensures lo as real * k as real <= n as real <= hi as real * k as real
  {
    assert (lo * k) as real == lo as real * k as real;
    assert (hi * k) as real == hi as real * k as real;
  }

  /** Rounding never leaves an interval with integral bounds. */
  lemma RoundWithin(x: real, digits: nat, lo: int, hi: int)
    requires lo as real <= x <= hi as real
    ensures lo as real <= RoundTo(x, digits) <= hi as real
  {
    UnitsWithin(x, digits, lo, hi);
    UnscaledWithin(Units(x, digits), Pow10(digits), lo, hi);
  }

  /** Dividing a count of units by the scale undoes the scaling of the
      bounds. */
  lemma UnscaledWithin(n: int, k: int, lo: int, hi: int)
    requires k >= 1 && lo * k <= n <= hi * k
    ensures lo as real <= n as real / k as real <= hi as real
  {
    IntBoundsAsReal(n, k, lo, hi);
    QuotientWithin(n as real, k as real, lo as real, hi as real);
  }

  lemma RoundExamples()
    ensures RoundTo(40.0, 1) == 40.0
    ensures RoundTo(0.125, 2) == 0.13 && RoundTo(-0.125, 2) == -0.13
    ensures RoundTo(0.124, 2) == 0.12
  {
    assert Pow10(1) == 10;
    assert Pow10(2) == 100;
  }

  /** `values.reduce((acc, val) => acc + val, 0)` */
  function Sum(values: seq<real>): real {
    if |values| == 0 then 0.0 else Sum(values[..|values| - 1]) + values[|values| - 1]
  }

  lemma {:induction false} SumWithin(values: seq<real>, lo: real, hi: real)
    requires forall k | 0 <= k < |values| :: lo <= values[k] <= hi
    ensures |values| as real * lo <= Sum(values) <= |values| as real * hi
  {
    if |values| > 0 {
      SumWithin(values[..|values| - 1], lo, hi);
    }
  }

  /** Mean rounded to two decimals; 0 for no values, never a division by 0. */
  function Average(values: seq<real>): (a: real)
    ensures |values| == 0 ==> a == 0.0
    ensures |values| > 0 ==> a == RoundTo(Sum(values) / |values| as real, 2)
    ensures (a * 100.0).Floor as real == a * 100.0
  {
    if |values| == 0 then 0.0 else RoundTo(Sum(values) / |values| as real, 2)
  }

  /** The rounded mean is within half a hundredth of the exact mean. */
  lemma AverageNearest(values: seq<real>)
    requires |values| > 0
    ensures var mean := Sum(values) / |values| as real;
      mean - 0.005 <= Average(values) <= mean + 0.005
  {
    var mean := Sum(values) / |values| as real;
    UnitsNearest(mean, 2);
    assert Pow10(2) == 100 by {
      assert Pow10(1) == 10;
    }
    HundredthsWithin(mean, Units(mean, 2));
  }

  /** An integer within half a unit of `100 * x`, divided by 100, is within
      half a hundredth of `x`. */
  lemma HundredthsWithin(x: real, n: int)
    requires x * 100.0 - 0.5 <= n as real <= x * 100.0 + 0.5
    ensures x - 0.005 <= n as real / 100.0 <= x + 0.005
  {
  }

  /** The mean of values in an integral interval stays in it. */
  lemma AverageWithin(values: seq<real>, lo: int, hi: int)
    requires forall k | 0 <= k < |values| :: lo as real <= values[k] <= hi as real
    ensures |values| > 0 ==> lo as real <= Average(values) <= hi as real
  {
    if |values| > 0 {
      var n := |values| as real;
      SumWithin(values, lo as real, hi as real);
      QuotientWithin(Sum(values), n, lo as real, hi as real);
      RoundWithin(Sum(values) / n, 2, lo, hi);
    }
  }

  lemma {:induction false} SumNonNegative(values: seq<real>)
    requires forall k | 0 <= k < |values| :: values[k] >= 0.0
    ensures Sum(values) >= 0.0
  {
    if |values| > 0 {
      SumNonNegative(values[..|values| - 1]);
    }
  }

  /** The mean of non-negative values is non-negative. */
  lemma AverageNonNegative(values: seq<real>)
    requires forall k | 0 <= k < |values| :: values[k] >= 0.0
    ensures Average(values) >= 0.0
  {
    if |values| > 0 {
      SumNonNegative(values);
    }
  }

  /** JavaScript truthiness of `task.completed`. */
  predicate IsCompleted(task: Doc) {
    task.completed == Val(true)
  }

  predicate IsActive(task: Doc) {
    !IsCompleted(task)
  }

  /** Not completed, with a due date strictly before `now`; an unparseable
      date is never before anything. */
  predicate IsOverdue(task: Doc, now: int) {
    && task.dueDate.Val?
    && !IsCompleted(task)
    && task.dueDate.value.Date?
    && task.dueDate.value.ms < now
  }

  function OverdueAt(now: int): Doc -> bool {
    t => IsOverdue(t, now)
  }

  function Count(tasks: seq<Doc>, p: Doc -> bool): (n: nat)
    ensures n <= |tasks|
  {
    if |tasks| == 0 then 0 else Count(tasks[..|tasks| - 1], p) + (if p(tasks[|tasks| - 1]) then 1 else 0)
  }

  /** A weaker condition counts at least as many tasks. */
  lemma {:induction false} CountMonotone(tasks: seq<Doc>, p: Doc -> bool, q: Doc -> bool)
    requires forall t :: p(t) ==> q(t)
    ensures Count(tasks, p) <= Count(tasks, q)
  {
    if |tasks| > 0 {
      CountMonotone(tasks[..|tasks| - 1], p, q);
    }
  }

  /** Each task satisfies a condition or its negation. */
  lemma {:induction false} CountComplement(tasks: seq<Doc>, p: Doc -> bool, q: Doc -> bool)
    requires forall t :: q(t) == !p(t)
    ensures Count(tasks, p) + Count(tasks, q) == |tasks|
  {
    if |tasks| > 0 {
      CountComplement(tasks[..|tasks| - 1], p, q);
    }
  }

  /** `task.urgency ?? 0` and `task.importance ?? 0` for every task. */
  function UrgencyScores(tasks: seq<Doc>): (s: seq<real>)
    ensures |s| == |tasks|
    ensures forall k | 0 <= k < |tasks| :: tasks[k].urgency.Val? ==> s[k] == tasks[k].urgency.value
    ensures forall k | 0 <= k < |tasks| :: !tasks[k].urgency.Val? ==> s[k] == 0.0
  {
    seq(|tasks|, k requires 0 <= k < |tasks| => tasks[k].urgency.Or(0.0))
  }

  function ImportanceScores(tasks: seq<Doc>): (s: seq<real>)
    ensures |s| == |tasks|
    ensures forall k | 0 <= k < |tasks| :: tasks[k].importance.Val? ==> s[k] == tasks[k].importance.value
    ensures forall k | 0 <= k < |tasks| :: !tasks[k].importance.Val? ==> s[k] == 0.0
  {
    seq(|tasks|, k requires 0 <= k < |tasks| => tasks[k].importance.Or(0.0))
  }

  /** Hours from creation to completion of a completed task that has a
      completion time; `None` when it has none, when `new Date(createdAt)`
      is invalid (a missing creation time; `null` reads as the epoch), or
      when the duration is negative. */
  function CompletionHours(task: Doc): (h: Option<real>)
    ensures h.Some? ==> IsCompleted(task) && task.completedAt.Val? && h.value >= 0.0
    ensures IsCompleted(task) && task.completedAt.Val? && (task.createdAt.Val? || task.createdAt.Null?) ==>
      var start := if task.createdAt.Val? then task.createdAt.value else 0;
      var hours := (task.completedAt.value - start) as real / MS_PER_HOUR as real;
      h == (if hours >= 0.0 then Some(hours) else None)
    ensures task.createdAt.Absent? || task.createdAt.Undef? ==> h == None
  {
    if IsCompleted(task) && task.completedAt.Val? then
      var start := match task.createdAt
        case Val(ms) => Some(ms)
        case Null => Some(0)
        case _ => None;
      match start
      case Some(s) =>
        var hours := (task.completedAt.value - s) as real / MS_PER_HOUR as real;
        if hours >= 0.0 then Some(hours) else None
      case None => None
    else None
  }

  function CompletionDurations(tasks: seq<Doc>): (d: seq<real>)
    ensures |d| <= Count(tasks, IsCompleted)
    ensures forall k | 0 <= k < |d| :: d[k] >= 0.0
  {
    if |tasks| == 0 then []
    else
      var rest := CompletionDurations(tasks[..|tasks| - 1]);
      match CompletionHours(tasks[|tasks| - 1])
      case Some(h) => rest + [h]
      case None => rest
  }

  /** The durations of a list are those of its parts, in order: the filter
      and map work task by task. */
  lemma {:induction false} CompletionDurationsAppend(a: seq<Doc>, b: seq<Doc>)
    ensures CompletionDurations(a + b) == CompletionDurations(a) + CompletionDurations(b)
    decreases |b|
  {
    if |b| == 0 {
      assert a + b == a;
    } else {
      var init := b[..|b| - 1];
      assert (a + b)[..|a + b| - 1] == a + init;
      assert (a + b)[|a + b| - 1] == b[|b| - 1];
      CompletionDurationsAppend(a, init);
    }
  }

  /** One task contributes its duration when it has one, and nothing
      otherwise. */
  lemma CompletionDurationsOne(task: Doc)
    ensures CompletionHours(task).Some? ==> CompletionDurations([task]) == [CompletionHours(task).value]
    ensures CompletionHours(task).None? ==> CompletionDurations([task]) == []
  {
    assert [task][..0] == [];
  }

  /** A share of completed tasks, as a rounded percentage, is a percentage. */
  lemma RateWithin(completed: nat, total: nat)
    requires completed <= total
    ensures total > 0 ==> 0.0 <= RoundTo(completed as real / total as real * 100.0, 1) <= 100.0
  {
    if total > 0 {
      QuotientWithin(completed as real, total as real, 0.0, 1.0);
      RoundWithin(completed as real / total as real * 100.0, 1, 0, 100);
    }
  }

  datatype Snapshot = Snapshot(
    totalTasks: nat,
    activeTasks: int,
    completedTasks: nat,
    completionRate: real,
    overdueTasks: nat,
    averageUrgency: real,
    averageImportance: real,
    averageCompletionHours: real,
    focusScore: real)

  /** Statistics of a snapshot of all tasks at time `now`. */
  function BuildStats(tasks: seq<Doc>, now: int): (s: Snapshot)
    ensures s.totalTasks == |tasks|
    ensures s.completedTasks == Count(tasks, IsCompleted)
    ensures s.activeTasks + s.completedTasks == s.totalTasks && s.activeTasks >= 0
    ensures s.overdueTasks == Count(tasks, OverdueAt(now))
    ensures s.overdueTasks <= s.activeTasks
    ensures 0.0 <= s.completionRate <= 100.0
    ensures |tasks| > 0 ==> s.completionRate == RoundTo(s.completedTasks as real / s.totalTasks as real * 100.0, 1)
    ensures s.averageUrgency == Average(UrgencyScores(tasks))
    ensures s.averageImportance == Average(ImportanceScores(tasks))
    ensures s.averageCompletionHours == Average(CompletionDurations(tasks))
    ensures s.averageCompletionHours >= 0.0
    ensures s.focusScore == RoundTo(0.6 * s.averageImportance + 0.4 * s.averageUrgency, 2)
    ensures |tasks| == 0 ==> s == Snapshot(0, 0, 0, 0.0, 0, 0.0, 0.0, 0.0, 0.0)
  {
    var total := |tasks|;
    var completed := Count(tasks, IsCompleted);
    var overdue := Count(tasks, OverdueAt(now));
    CountComplement(tasks, IsCompleted, IsActive);
    CountMonotone(tasks, OverdueAt(now), IsActive);
    var rate := if total > 0 then RoundTo(completed as real / total as real * 100.0, 1) else 0.0;
    RateWithin(completed, total);
    var durations := CompletionDurations(tasks);
    AverageNonNegative(durations);
    var avgUrgency := Average(UrgencyScores(tasks));
    var avgImportance := Average(ImportanceScores(tasks));
    Snapshot(
      total, total - completed, completed, rate, overdue,
      avgUrgency, avgImportance, Average(durations),
      RoundTo(0.6 * avgImportance + 0.4 * avgUrgency, 2))
  }

  /** With every stored score in [0, 1] (a missing score counts as 0), both
      averages and the focus score are in [0, 1] too. */
  lemma ScoresStayInUnit(tasks: seq<Doc>, now: int)
    requires forall k | 0 <= k < |tasks| :: tasks[k].urgency.Val? ==> 0.0 <= tasks[k].urgency.value <= 1.0
    requires forall k | 0 <= k < |tasks| :: tasks[k].importance.Val? ==> 0.0 <= tasks[k].importance.value <= 1.0
    ensures var s := BuildStats(tasks, now);
      && 0.0 <= s.averageUrgency <= 1.0
      && 0.0 <= s.averageImportance <= 1.0
      && 0.0 <= s.focusScore <= 1.0
  {
    var s := BuildStats(tasks, now);
    AverageWithin(UrgencyScores(tasks), 0, 1);
    AverageWithin(ImportanceScores(tasks), 0, 1);
    RoundWithin(0.6 * s.averageImportance + 0.4 * s.averageUrgency, 2, 0, 1);
  }

  /** Ten tasks of which four are completed give a rate of 40.0. */
  lemma CompletionRateOfTenWithFour(tasks: seq<Doc>, now: int)
    requires |tasks| == 10 && Count(tasks, IsCompleted) == 4
    ensures BuildStats(tasks, now).completionRate == 40.0
  {
    assert 4 as real / 10 as real * 100.0 == 40.0;
    assert Pow10(1) == 10;
    assert Units(40.0, 1) == 400;
    assert RoundTo(40.0, 1) == 40.0;
  }
}
