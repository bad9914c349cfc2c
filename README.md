# human-duration, modelled in Dafny

`human-duration` formats a number of milliseconds as a short human-readable
string such as `1d 7h 10m 13s`. A `Duration` holds:

- the duration;
- a *grading*, which is the list of units used (each unit has a size in
  milliseconds and either a `%` template or a rendering function);
- a separator.

`segments(max)` produces the string in three passes:

1. **Decompose.** Sort a copy of the grading by unit size, then split the
   duration into a count per unit. Each finer unit's count is the running
   value modulo the ratio to the next unit. The coarsest unit takes the rest.
2. **Filter.** Walk the counts coarsest first. Skip zero counts until the
   first non-zero one, then keep at most `max` parts.
3. **Render.** Put the kept parts back in the caller's grading order.
   Render each one by template or by function, and join them with the
   separator.

The modules follow those passes:

| file | module | contents |
|---|---|---|
| `wrappers.dfy` | `Wrappers` | `Option` |
| `arith.dfy` | `Arith` | division and remainder lemmas used by the decomposition proofs |
| `text.dfy` | `Text` | decimal digits, replace-all on one character, split and join |
| `gradings.dfy` | `Gradings` | units, the five standard units, rendering one count |
| `sorting.dfy` | `Sorting` | the sorted copy of the grading, as a stable insertion sort over positions |
| `decompose.dfy` | `Decompose` | pass 1: per-unit counts, recombination and uniqueness |
| `filter.dfy` | `Filter` | pass 2: the filter callback and the window it keeps |
| `segmenter.dfy` | `Segmenter` | pass 3 and the whole pipeline (`Format`), with its properties |
| `humanduration.dfy` | `HumanDuration` | the `Duration` class and `fmt` |
| `cases.dfy` | `Cases` | the cases of `test.js` as lemmas about exact output strings |

Modelling choices:

- **Durations and factors.** Durations are natural numbers of milliseconds.
  Unit sizes are positive naturals (`Factor`).
- **Commensurable units.** `segments` requires every unit size in the
  grading to divide every larger one (`Commensurable`). The standard units
  meet this (`Gradings.StandardCommensurable`), as does every case in
  `test.js`. Under it, the source's floating-point steps match integer
  division and remainder exactly: `Math.round(next / grade)` becomes the
  exact ratio, and flooring the running quotient becomes integer division.
- **Units by position.** Units are identified by their position in the
  caller's list. The source's `parts.find(p => p.grade === grade)` looks
  them up by object identity.
- **The `max` budget.** `max` is an `Option<int>`. `None` is the default
  `Infinity`. A negative budget, like the infinite one, never counts down to
  zero (`Segmenter.NegativeIsUnlimited`).

The source's running `duration` (index.ts:57-64) and the `started` and
`max` variables of the filter callback (index.ts:70-84) change step by step.
They are modelled by loops:

- `Decompose.Digits` is the running-value loop. It is proved against the
  per-unit specification `Count`.
- `Filter.KeepWindow` is the filter loop. It is proved against `Keep`, a
  recursive statement of the callback, which in turn is shown equal to the
  declarative `Window`.

The class `Duration` has a mutable grading and separator, updated by
chainable setters.

There is one disagreement between `test.js` and `index.ts`. test.js:16
expects `fmt(0)` to print `0s`. In `index.ts` a zero duration gives all-zero
counts, so no part ever starts and the result is the empty string. The model
follows `index.ts`: `Cases.ZeroDuration` proves the empty result, and
`Segmenter.ShorterThanEveryUnit` generalises it to any duration below every
unit.

## Model

| member | source | states |
|---|---|---|
| `Gradings.StandardCommensurable` | index.ts:9-13 | the five standard units (1, 1000, 60000, 3600000, 86400000 ms) and the default grading each have every smaller size dividing every larger one |
| `Gradings.RenderTemplate` | index.ts:90-92 | a template segment is the template with every `%` replaced by the count's decimal digits; it contains no `%`, and the digits read back as the count |
| `Gradings.Render` | index.ts:90-92 | a template unit renders without any `%` left, and a template without `%` renders as itself whatever the count |
| `Text.Decimal` | index.ts:92 | the decimal form of a count is non-empty, all digits, and has no leading zero unless the count is 0 |
| `Text.DecimalRoundTrip` | index.ts:92 | parsing the decimal form of `n` gives back `n` |
| `Text.ReplaceAll` | index.ts:92 | replacing `%` by a `%`-free string leaves no `%`; a text without `%` is unchanged |
| `Text.SplitOn` | index.ts:92 | splitting on `%` gives one more piece than there are `%`s, and no piece contains `%` |
| `Text.ReplaceAllIsSplitJoin` | index.ts:92 | replacing every `%` equals splitting on `%` and joining with the replacement |
| `Text.SplitJoinRoundTrip` | index.ts:92 | splitting on a character and joining with that character restores the text |
| `Text.ReplaceWithSelf` | index.ts:92 | replacing `%` by `%` leaves the text unchanged |
| `Text.Join` | index.ts:93 | the joined text starts with the first part and is at least as long as all parts together |
| `Text.JoinShape` | index.ts:93 | a join's length is the sum of the parts plus one separator between each two parts; it starts with the first part and ends with the last, so no separator leads or trails |
| `Text.JoinAppend` | index.ts:93 | joining two non-empty lists is joining each and putting one separator between them |
| `Sorting.Insert` | index.ts:52 | inserting a position into a list sorted by unit size keeps it sorted and distinct, and adds exactly that position |
| `Sorting.SortedPrefix` | index.ts:52 | the first `n` positions, sorted: a distinct list ordered by unit size holding exactly `0..n-1` |
| `Sorting.SortedCopy` | index.ts:52 | the sorted copy is a permutation of the grading's positions, ordered by unit size |
| `Decompose.SortedFactorsChain` | index.ts:52-63 | once sorted, a commensurable grading's sizes form a chain where each divides the next |
| `Decompose.RatioExact` | index.ts:63-64 | the next unit is exactly `ratio` times the current one, so rounding the ratio changes nothing |
| `Decompose.CountBounds` | index.ts:58-63 | a finer unit's count is below the ratio to the next unit; the coarsest unit's count is the whole quotient with no bound; a duration below the unit gives 0 |
| `Decompose.CountBelowUnit` | index.ts:58-63 | a unit larger than the whole duration counts 0 |
| `Decompose.Count` | index.ts:58-63 | a finer unit's count is below the ratio to the next unit |
| `Decompose.Counts` | index.ts:58-67 | one count per sorted unit, the coarsest taking the whole quotient |
| `Decompose.Decomposition` | index.ts:58-67 | one part per sorted unit, carrying that unit's position |
| `Decompose.DecompositionAt` | index.ts:58-67 | the k-th part is the k-th sorted unit with `floor(d / f_k) mod (f_{k+1} / f_k)`, or `floor(d / f_k)` for the last |
| `Decompose.Digits` | index.ts:57-67 | the running-value loop produces exactly the specified count for every unit |
| `Decompose.Split` | index.ts:57-67 | the parts pass 1 builds are the specified decomposition |
| `Decompose.NextRunning` | index.ts:64 | dividing the running value by the ratio gives the quotient by the next unit |
| `Decompose.SplitStep` | index.ts:63-64 | one loop step: the remainder is this unit's count and the quotient is the next running value |
| `Decompose.Recombine` | index.ts:57-67 | the counts times their unit sizes sum to the duration rounded down to the finest unit |
| `Decompose.MixedRadixUnique` | index.ts:57-67 | any counts within the ratio bounds that sum to the rounded duration are exactly the computed counts (both directions) |
| `Filter.FirstNonZero` | index.ts:77-80 | the position where `started` turns on: every earlier count is 0 and the count there is not |
| `Filter.Window` | index.ts:70-84 | the kept parts are a contiguous run starting at the first non-zero count, at most `max` long (all to the finest if unbounded); exactly `min(remaining, max)` long for a non-negative `max`; empty if every count is 0, non-empty if some count is not and `max` is not 0 |
| `Filter.Decrement` | index.ts:82 | `max--` keeps a budget present or absent, lowers a present one, and keeps an unbounded one unbounded |
| `Filter.Keep` | index.ts:73-84 | the callback from a given state keeps at most the remaining parts and at most the remaining budget, all taken from those parts; before it has started, the first part it keeps has a non-zero count |
| `Filter.WindowMonotone` | index.ts:74-83 | one more unit of budget keeps every part kept before, as a prefix, and at most one part more |
| `Filter.KeepExhausted` | index.ts:74-76 | once the budget is 0 the callback keeps nothing |
| `Filter.KeepStarted` | index.ts:77-83 | once started, the callback keeps the next `max` parts, or all of them when unbounded |
| `Filter.KeepSkips` | index.ts:77-80 | before the first non-zero count the callback keeps nothing and spends no budget |
| `Filter.KeepIsWindow` | index.ts:70-84 | the callback run over the whole reversed list from its initial state keeps exactly the window |
| `Filter.KeepWindow` | index.ts:70-84 | the filter loop with its `started` flag and decrementing budget returns the window |
| `Segmenter.Find` | index.ts:88 | the lookup finds nothing exactly when no kept part has that position; otherwise it returns a kept part at that position |
| `Segmenter.Reverse` | index.ts:72 | the reversed parts are as many as the parts and have the same members |
| `Segmenter.Arrange` | index.ts:87-89 | every part shown is a kept part of a unit in the grading |
| `Segmenter.ArrangeIncreasing` | index.ts:87-89 | the shown parts follow the caller's grading order |
| `Segmenter.ArrangePermutes` | index.ts:87-89 | with distinct positions in range, the shown parts are exactly the kept parts, none lost or repeated |
| `Segmenter.ArrangeInOrder` | index.ts:87-89 | kept parts already in grading order are shown unchanged |
| `Segmenter.IncreasingUnique` | index.ts:87-89 | two lists in grading order with the same members are equal |
| `Segmenter.RunBelow` | index.ts:70-84 | the filter keeps only parts of units in the grading |
| `Segmenter.WindowOfReversed` | index.ts:71-72 | read against the ascending parts, the kept parts are a run taken from the coarse end downwards |
| `Segmenter.KeptUnits` | index.ts:58-84 | the kept parts name distinct units of the grading |
| `Segmenter.Kept` | index.ts:52-84 | no more kept parts than units, at most `max` of them, and the first has a non-zero count |
| `Segmenter.Displayed` | index.ts:87-89 | every shown part belongs to a unit of the caller's list |
| `Segmenter.RenderAll` | index.ts:90-92 | one text per shown part, with no `%` left in the text of a template unit |
| `Segmenter.Format` | index.ts:50-94 | nothing shown gives the empty string; a single shown part gives just its text; otherwise the result starts with the first shown part's text |
| `Segmenter.DisplayedIsKept` | index.ts:70-89 | the shown parts are the kept parts in the caller's order, as many as were kept |
| `Segmenter.SegmentLimit` | index.ts:50-82 | at most `max` segments are shown, and `max = 0` gives the empty string |
| `Segmenter.NegativeIsUnlimited` | index.ts:74-82 | a negative budget shows the same as an absent one |
| `Segmenter.DisplayedMonotone` | index.ts:70-89 | every segment shown with budget `n` is still shown with budget `n + 1`, and at most one more appears |
| `Segmenter.WindowEmptyIffAllZero` | index.ts:70-84 | unless `max` is 0, nothing is kept exactly when every count is 0 |
| `Segmenter.EmptyIffAllZero` | index.ts:53-93 | unless `max` is 0, nothing is shown exactly when every count is 0, and then the result is the empty string |
| `Segmenter.ShorterThanEveryUnit` | index.ts:53-93 | a duration below every unit's size (0 included, and any duration for an empty grading) formats as the empty string |
| `Segmenter.RunCoarsest` | index.ts:70-84 | the first kept part has a non-zero count and the largest unit of those kept |
| `Segmenter.CoarsestShownIsNonZero` | index.ts:70-89 | among the shown segments, the one of the coarsest unit has a non-zero count |
| `HumanDuration.Duration.constructor` | index.ts:24-29 | a new duration holds its milliseconds, days/hours/minutes/seconds and a space separator |
| `HumanDuration.Duration.SetGrading` | index.ts:34-37 | replaces only the grading and returns the same object |
| `HumanDuration.Duration.SetSeparator` | index.ts:42-45 | replaces only the separator and returns the same object |
| `HumanDuration.Duration.Segments` | index.ts:50-94 | returns the formatted string of the three passes and leaves the object unchanged |
| `HumanDuration.Duration.ToString` | index.ts:99-101 | the same string as `Segments` with the same budget |
| `HumanDuration.Fmt` | index.ts:104-106 | a fresh duration with the default grading and separator |
| `Cases.DescendingOrder` | index.ts:52 | four units listed largest first sort into the reverse order, as the default grading does |
| `Cases.FourParts` | index.ts:58-67 | over four sorted units each part is the quotient by its unit modulo the ratio to the next, the last the whole quotient |
| `Cases.ZeroDuration` | test.js:16 | `fmt(0)` formats as the empty string, not `0s` |
| `Cases.OneSecond` | test.js:17 | 1200 ms formats as `1s` |
| `Cases.NinetySeconds` | test.js:18 | 90 s formats as `1m 30s` |
| `Cases.SeventyMinutes` | test.js:19 | 70 min 13 s formats as `1h 10m 13s` |
| `Cases.AllUnits` | test.js:20 | 30 h 70 min 13 s formats as `1d 7h 10m 13s` |
| `Cases.OneHour` | test.js:21 | one hour formats as `1h 0m 0s` |
| `Cases.OneHourLimited` | test.js:24-26 | one hour with budget 0, 1 and 2 formats as the empty string, `1h` and `1h 0m` |
| `Cases.MillisecondHour` | test.js:29 | 3601200 ms with the grading `[millisecond, hour]` formats as `1200ms 1h` |
| `Cases.Jiffies` | test.js:8-31 | with a 5 ms unit rendered by a function, 5 ms is `a jiffy` and 40 ms is `8 jiffies` |
| `Cases.OneHourColon` | test.js:32 | one hour with separator `:` formats as `1h:0m:0s` |

## Left out

- Floating-point durations are not modelled. Fractional, negative, NaN and infinite durations are out of scope. So is float rounding in the running quotient (index.ts:57, 64).
- HumanDuration.Duration.Segments: requires `Commensurable(grading)`. For unit sizes that do not divide one another, the source's `Math.round` of a fractional ratio and its fractional running value are not modelled.
- HumanDuration.Duration.SetGrading, HumanDuration.Duration.Segments: the grading is held as a value, so aliasing of the caller's grading array (index.ts:35) is not modelled: a later in-place change to that array, which the source's next `segments` call would see, cannot be expressed. The copy that `slice()` makes before sorting (index.ts:52) is implicit in the value semantics.
- Non-integer `max` values are not modelled. Nor is the JavaScript coercion of a non-number `max` to NaN, which never equals 0 and so acts as unbounded.
- Object identity in `parts.find(p => p.grade === grade)` (index.ts:88) is not modelled. Units are identified by position. If the same unit object appears twice in a grading, the source shows the coarser part's count at both places; the model gives each position its own count.
- `String(count)` is modelled as plain decimal digits. This matches JavaScript for counts below 10^21. Exponent notation for larger counts is not modelled.
- Rendering functions are modelled as pure functions from a count to a string. Side effects and exceptions of a caller's function are not modelled.
- `Array.prototype.sort` is modelled by a stable insertion sort (`Sorting.SortedCopy`). The ES2019 sort is also stable. The model does not state stability as a property.
- The `ISegment` interface (index.ts:19-22) is declared but not used by `segments`, so it is not modelled.
- The mocha loop in test.js:35-43 that runs each case is not modelled. Its cases appear as the `Cases` lemmas.
