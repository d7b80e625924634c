# Harvest day counter

A Dafny model of `ft_count_harvest_recursive` from the "Growing Code" exercises
(exercise 5). The routine holds two integers: the target number of days until
harvest (`days_input`) and the running count of days already announced
(`days_count`). Each invocation does one of three things:

- The count equals the target and is not 0: it prints `Harvest time!` and stops.
- The count is below the target: it adds one to the count, prints `Day n` with
  the new count, and calls itself again.
- Anything else: it prints nothing and returns.

The model is pure, like the source. The routine's self-recursion, with its two
accumulating arguments, becomes the recursive function `HarvestCounter.Count`.
The printed lines become the returned `seq<Line>`, where
`datatype Line = Day(n: int) | HarvestTime`. The prompt branch, which reads a
target and sets the count to 0, becomes the entry point `HarvestCounter.Start`,
which takes the target as an integer parameter. `HarvestCounter.Invocations`
lists the `days_count` argument that each successive call receives. It is used
to state the recursion depth and the bound on the count. `HarvestCounter.Schedule`
is an independent, non-recursive description of the whole output.
`CountIsSchedule` proves that `Count` matches it from every integer entry state.

Termination is shown by the `decreases target - count` clause on `Count` and
`Invocations`. A recursive call happens only while the count is below the
target, and each call adds one to the count.

Two points where the code's behaviour differs from what one might expect:

- A target of 0 prints nothing, not even `Harvest time!`. At count 0 the
  completion guard at line 6 needs a non-zero count, and line 9's
  `days_count < days_input` is false. A negative target also prints nothing.
  One might expect a zero target to print `Harvest time!` at once; the code
  prints nothing, and the model follows the code.
- From an arbitrary entry state with count `c` below target `T`, the output is
  `Day c+1` ... `Day T`, followed by `Harvest time!` only when `T` is not 0.
  With `T = 0` and a negative count, the count reaches 0 and the completion
  guard rejects it, so no completion line is printed (`ZeroTargetFromBelow`).
  `Start` never reaches this state, because it always begins at count 0.

## Model

| member | source | states |
|---|---|---|
| HarvestCounter.Count | ex5/ft_count_harvest_recursive.py:6-12 | The recursive step, terminating because `target - count` decreases. Only the last line can be `Harvest time!`, so it appears at most once and only at the end. Every `Day n` satisfies `count < n <= target`. The first day announced is `count + 1`. Consecutive `Day` lines go up by exactly 1. |
| HarvestCounter.Start | ex5/ft_count_harvest_recursive.py:2-5 | With the count set to 0, the output is empty exactly when the target is 0 or negative. |
| HarvestCounter.CountIsSchedule | ex5/ft_count_harvest_recursive.py:6-12 | From every integer entry state, the output equals the reference schedule. A count past the target gives nothing. Otherwise the days `count+1` through `target` are printed in order, then `Harvest time!` unless the target is 0. |
| HarvestCounter.CountAnnouncesHarvest | ex5/ft_count_harvest_recursive.py:6-8 | `Harvest time!` is printed if and only if the count is at most the target and the target is not 0. |
| HarvestCounter.CountFromBelow | ex5/ft_count_harvest_recursive.py:9-12 | For a count `c` below the target `T`, line `i` is `Day c+1+i` for every `i < T-c`. When `T` is not 0, one final `Harvest time!` follows, and nothing else. |
| HarvestCounter.CountAtOrPastTarget | ex5/ft_count_harvest_recursive.py:6-9 | A count equal to a non-zero target prints only `Harvest time!`. A count equal to a zero target, or past the target, prints nothing. |
| HarvestCounter.StartCountsUp | ex5/ft_count_harvest_recursive.py:5-12 | For a target `T >= 1` the output is `Day 1` ... `Day T` followed by exactly one `Harvest time!`: `T + 1` lines in total. |
| HarvestCounter.ThreeDaySession | ex5/ft_count_harvest_recursive.py:5-12 | A target of 3 prints `Day 1`, `Day 2`, `Day 3`, `Harvest time!`. |
| HarvestCounter.ZeroTargetFromBelow | ex5/ft_count_harvest_recursive.py:6-12 | Entering with count -2 and target 0 prints `Day -1` and `Day 0`, with no completion line. |
| HarvestCounter.Invocations | ex5/ft_count_harvest_recursive.py:6-12 | The first invocation receives the entry count. Each recursive call receives the previous count plus one. A count at or past the target (such as count 0 with a zero or negative target) makes no recursive call: the routine returns at once. |
| HarvestCounter.InvocationsStayWithinTarget | ex5/ft_count_harvest_recursive.py:9-12 | From a count at or below the target there are exactly `target - count + 1` invocations. No invocation receives a count above the target, and the last one receives the target itself. |
| HarvestCounter.DayLinePerRecursiveCall | ex5/ft_count_harvest_recursive.py:9-12 | Each recursive call corresponds to exactly one `Day` line. The number of lines other than `Harvest time!` equals the number of invocations minus one. |

## Left out

- Reading the target with `input()` and `int()` (ex5/ft_count_harvest_recursive.py:3-4) is external input. `Start` takes the target as an integer. The `ValueError` that `int()` raises on non-numeric text is not modelled.
- A call with an integer target and a `None` count fails with a `TypeError` at the comparison on line 9. The model's count is always an integer, so this path is not modelled.
- The module-level call `ft_count_harvest_recursive(None, None)` at line 15 runs the prompt when the file is imported. It is an import-time side effect and is not modelled.
- Printing goes to standard output. The model returns the lines as values, so the text formatting of `Day n` (with Python's `print` separator) is not modelled.
- Python's recursion limit is not modelled. A large target makes the interpreter raise `RecursionError` after about a thousand calls. The model's recursion is unbounded.
- `main.py` is not part of this model. It is the exercise runner: a menu, dynamic module loading, `__pycache__` removal and error messages. The other exercises it refers to, such as `ft_count_harvest_iterative` and `ft_seed_inventory`, are separate exercises and are not modelled here.
