/** generate_time_steps (Utilities/Scripts/asnie_utils.py): every instant from
    start to end inclusive, a fixed number of minutes apart. Instants are
    absolute minute counts; the calendar conversion is not modelled. */
module TimeSteps {
  import opened Wrappers

  /** The step the driver uses (the default of step_minutes). */
  const DefaultStepMinutes: int := 15

  datatype TimeError = EndBeforeStart

  /** The sequence is an inclusive arithmetic progression from start towards end. */
  ghost predicate IsSchedule(times: seq<int>, start: int, end: int, step: int)
  {
    && |times| > 0
    && times[0] == start
    && (forall k :: 0 < k < |times| ==> times[k] == times[k - 1] + step)
    && (forall k :: 0 <= k < |times| ==> times[k] <= end)
    && end < times[|times| - 1] + step
  }

  /** Raises when end is before start; otherwise collects start, start + step, ...
      while the current instant is not after end. */
  method GenerateTimeSteps(start: int, end: int, stepMinutes: int) returns (r: Result<seq<int>, TimeError>)
    requires stepMinutes > 0
    ensures end < start ==> r == Failure(EndBeforeStart)
    ensures start <= end ==> r.Success? && IsSchedule(r.value, start, end, stepMinutes)
  {
    if end < start {
      return Failure(EndBeforeStart);
    }
    var times: seq<int> := [];
    var current := start;
    while current <= end
      invariant times == [] ==> current == start
      invariant times != [] ==> times[0] == start && current == times[|times| - 1] + stepMinutes
      invariant forall k :: 0 < k < |times| ==> times[k] == times[k - 1] + stepMinutes
      invariant forall k :: 0 <= k < |times| ==> times[k] <= end
      decreases end - current
    {
      times := times + [current];
      current := current + stepMinutes;
    }
    return Success(times);
  }

  /** Every element is start plus a whole number of steps. */
  lemma {:induction false} ScheduleElements(times: seq<int>, start: int, end: int, step: int, k: nat)
    requires IsSchedule(times, start, end, step) && k < |times|
    ensures times[k] == start + k * step
  {
    if k > 0 {
      ScheduleElements(times, start, end, step, k - 1);
    }
  }

  /** The length of the schedule is (end - start) div step + 1. */
  lemma ScheduleLength(times: seq<int>, start: int, end: int, step: int)
    requires step > 0 && IsSchedule(times, start, end, step)
    ensures |times| == (end - start) / step + 1
  {
    var n := |times|;
    ScheduleElements(times, start, end, step, n - 1);
    var last := start + (n - 1) * step;
    assert (n - 1) * step <= end - start < n * step;
    DivBetween(end - start, step, n - 1);
  }

  lemma DivBetween(a: int, b: int, q: int)
    requires b > 0 && q * b <= a < (q + 1) * b
    ensures a / b == q
  {
    var d, r := a / b, a % b;
    assert a == d * b + r && 0 <= r < b;
    if d > q {
      MulMono(q + 1, d, b);
    } else if d < q {
      MulMono(d + 1, q, b);
    }
  }

  lemma MulMono(x: int, y: int, b: int)
    requires x <= y && b > 0
    ensures x * b <= y * b
  {
    assert y * b - x * b == (y - x) * b;
  }

  /** Two schedules for the same arguments are equal: the result is determined. */
  lemma {:induction false} ScheduleUnique(s1: seq<int>, s2: seq<int>, start: int, end: int, step: int)
    requires step > 0 && IsSchedule(s1, start, end, step) && IsSchedule(s2, start, end, step)
    ensures s1 == s2
  {
    ScheduleLength(s1, start, end, step);
    ScheduleLength(s2, start, end, step);
    forall k | 0 <= k < |s1| ensures s1[k] == s2[k] {
      ScheduleElements(s1, start, end, step, k);
      ScheduleElements(s2, start, end, step, k);
    }
  }
}
