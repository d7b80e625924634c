/**
 The harvest day counter of exercise 5 ("Growing Code"): a tail-recursive
 routine over two integers, the target number of days and the count of days
 already announced. Each invocation either announces completion and stops,
 or advances the count by one, announces the new day and calls itself again.

 The routine's printed lines are modelled as the returned sequence of `Line`
 values, so no number is ever turned into text.
 */
module HarvestCounter {

  /** One printed line: `Day n` or `Harvest time!`. */
  datatype Line = Day(n: int) | HarvestTime

  /** The progress lines `Day lo+1`, ..., `Day hi`, in that order. */
  function DayRange(lo: int, hi: int): (days: seq<Line>)
    requires lo <= hi
  {
    seq(hi - lo, i requires 0 <= i < hi - lo => Day(lo + 1 + i))
  }

  /**
   Reference description of the whole output from an entry state: nothing
   when the count is already past the target; otherwise the remaining days
   followed by the completion line, which a zero target never gets.
   */
  function Schedule(target: int, count: int): (lines: seq<Line>)
  {
    if count > target then []
    else DayRange(count, target) + (if target != 0 then [HarvestTime] else [])
  }

  /**
   One invocation with an integer target and count, together with all the
   calls it makes. Completion is announced only for a non-zero count equal
   to the target; a count below the target is advanced and announced; any
   other state prints nothing.
   */
  function Count(target: int, count: int): (out: seq<Line>)
    decreases target - count
    // the completion line can only be the last line
    ensures forall i :: 0 <= i < |out| - 1 ==> out[i].Day?
    // every announced day lies strictly after the entry count and up to the target
    ensures forall i :: 0 <= i < |out| && out[i].Day? ==> count < out[i].n <= target
    // the first announced day is the one right after the entry count
    ensures |out| > 0 && out[0].Day? ==> out[0].n == count + 1
    // consecutive progress lines announce consecutive days
    ensures forall i :: 0 <= i < |out| - 1 && out[i + 1].Day? ==> out[i + 1].n == out[i].n + 1
  {
    if target == count && count != 0 then
      [HarvestTime]
    else if count < target then
      [Day(count + 1)] + Count(target, count + 1)
    else
      []
  }

  /** The prompt's entry point: the target read in, the count set to 0. */
  function Start(target: int): (out: seq<Line>)
    ensures out == [] <==> target <= 0
  {
    Count(target, 0)
  }

  /** From every integer entry state the output is exactly the schedule. */
  lemma {:induction false} CountIsSchedule(target: int, count: int)
    ensures Count(target, count) == Schedule(target, count)
    decreases target - count
  {
    if count < target {
      CountIsSchedule(target, count + 1);
      assert DayRange(count, target) == [Day(count + 1)] + DayRange(count + 1, target);
    }
  }

  /** The completion line is printed exactly when the count has not passed a non-zero target. */
  lemma CountAnnouncesHarvest(target: int, count: int)
    ensures HarvestTime in Count(target, count) <==> count <= target && target != 0
  {
    CountIsSchedule(target, count);
    var days := DayRange(count, if count <= target then target else count);
    assert forall i :: 0 <= i < |days| ==> days[i].Day?;
  }

  /** From a count below the target: `Day c+1` ... `Day T`, then the completion line unless T is 0. */
  lemma CountFromBelow(target: int, count: int)
    requires count < target
    ensures |Count(target, count)| == target - count + (if target != 0 then 1 else 0)
    ensures forall i :: 0 <= i < target - count ==> Count(target, count)[i] == Day(count + 1 + i)
    ensures target != 0 ==> Count(target, count)[target - count] == HarvestTime
  {
    CountIsSchedule(target, count);
  }

  /** From a count that has reached the target: only the completion line, or nothing at 0; past it, nothing. */
  lemma CountAtOrPastTarget(target: int, count: int)
    requires target <= count
    ensures Count(target, count) == if count == target && count != 0 then [HarvestTime] else []
  {
  }

  /** A positive target T prints `Day 1` ... `Day T` and then `Harvest time!` once. */
  lemma StartCountsUp(target: int)
    requires target >= 1
    ensures |Start(target)| == target + 1
    ensures forall i :: 0 <= i < target ==> Start(target)[i] == Day(i + 1)
    ensures Start(target)[target] == HarvestTime
  {
    CountFromBelow(target, 0);
  }

  /** The three-day session: `Day 1`, `Day 2`, `Day 3`, `Harvest time!`. */
  lemma ThreeDaySession()
    ensures Start(3) == [Day(1), Day(2), Day(3), HarvestTime]
  {
  }

  /** A zero target is never completed, even when counted up to from below. */
  lemma ZeroTargetFromBelow()
    ensures Count(0, -2) == [Day(-1), Day(0)]
  {
  }

  /**
   The `days_count` argument of the entry invocation and of every recursive
   call it makes, in order. Its length is the number of invocations.
   */
  function Invocations(target: int, count: int): (counts: seq<int>)
    decreases target - count
    ensures |counts| >= 1 && counts[0] == count
    ensures forall i :: 0 <= i < |counts| - 1 ==> counts[i + 1] == counts[i] + 1
    // a count at or past the target makes no recursive call: the routine returns at once
    ensures target <= count ==> counts == [count]
  {
    if target == count && count != 0 then
      [count]
    else if count < target then
      [count] + Invocations(target, count + 1)
    else
      [count]
  }

  /**
   Termination and the bound on the count: from a count at or below the
   target, the calls receive `count`, `count+1`, ..., `target`, so there are
   exactly `target - count + 1` invocations and no call is passed a count
   beyond the target.
   */
  lemma {:induction false} InvocationsStayWithinTarget(target: int, count: int)
    requires count <= target
    ensures |Invocations(target, count)| == target - count + 1
    ensures forall i :: 0 <= i < |Invocations(target, count)| ==> Invocations(target, count)[i] <= target
    ensures Invocations(target, count)[|Invocations(target, count)| - 1] == target
    decreases target - count
  {
    if count < target {
      InvocationsStayWithinTarget(target, count + 1);
    }
  }

  /** Each invocation except the last prints one `Day` line; the last prints at most the completion line. */
  lemma {:induction false} DayLinePerRecursiveCall(target: int, count: int)
    ensures |Invocations(target, count)| - 1 == |Count(target, count)| - (if HarvestTime in Count(target, count) then 1 else 0)
    decreases target - count
  {
    CountAnnouncesHarvest(target, count);
    if count < target {
      DayLinePerRecursiveCall(target, count + 1);
      CountAnnouncesHarvest(target, count + 1);
    }
  }
}
