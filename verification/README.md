# Advent of Code 2018, modelled in Dafny

This project models the puzzle solutions of an Advent of Code 2018 collection
(Kotlin, plus one C file) as pure Dafny functions over immutable datatypes, and
proves what each solution promises: orderings, bounds, invariants, round trips
and the error cases.

Layout:

- One module per source file (`Day2` … `Day25`).
  - Day 15 is split over `Day15` (positions, comparators, parsing),
    `Day15Path` (the shortest-distance search), `Day15Turn` (actions, turns and
    validation) and `Day15Game` (timeline, outcome, elf power search).
  - `Day11C` models `src/day11/day11.c` beside the Kotlin `Day11`.
- Shared modules:
  - `Wrappers`: `Option` and `Result`. A thrown exception is an `Err` carrying
    the exception's name.
  - `Arith`: Kotlin's 32-bit `Int` wrap-around (`Wrap32`), and `/` and `%`
    truncating toward zero (`TruncDiv`, `TruncMod`).
  - `Plane`: grid positions, reading order and integer ranges.
  - `Device`: the sixteen-opcode register machine shared by days 16, 19 and 21.
  - `Toolbox`: `scanl`, `repeat` and generic iteration.
- Day 21's machine is textually the same as day 19's, so `Device` and `Day19`
  model both.
- Loops the source may never leave take a `fuel: nat` parameter. Running out
  gives `Err("OutOfFuel")`:
  - the flood fill of day 6 (it ends in the source; the model does not prove
    a bound on its worklist);
  - the timelines of days 13, 15 and 18;
  - the opcode elimination of day 16;
  - the water fill of day 17;
  - the interpreter of days 19 and 21.
- Parsing done by an external parser-combinator library is not modelled: those
  operations take already-parsed datatypes. The hand-written parsers are
  modelled: days 8, 13, 15, 18 and 20.

## Model

| member | source | states |
|---|---|---|
| Toolbox.Scanl | src/toolbox/sequence.kt:13-15 | `scanl` emits exactly one accumulator per input element, and never the initial value on its own |
| Toolbox.ScanlElement | src/toolbox/sequence.kt:13-15 | element k of `scanl` is the fold of f over the first k+1 inputs |
| Toolbox.ScanlLastIsFold | src/toolbox/sequence.kt:9-15 | the documented identity: the last element of `scanl(i, f)` on a non-empty sequence is `fold(i, f)` |
| Toolbox.FoldSnoc | src/toolbox/sequence.kt:11 | folding over `s + [x]` applies f once more to the fold of `s` |
| Toolbox.Repeat | src/toolbox/sequence.kt:6 | the first `copies` rounds of `repeat()` hold `copies` times the length of `s` elements |
| Toolbox.RepeatIndex | src/toolbox/sequence.kt:6 | element k of `s.repeat()` is element `k` modulo the length of `s` for non-empty s |
| Arith.TruncMod | src/day22/day22.kt:95 | Kotlin's `%` keeps the sign of the dividend: for a non-negative dividend it is the Euclidean remainder, and for a negative one it is minus the remainder of the magnitude |
| Arith.Wrap32 | src/day16/day16.kt:57-61 | Kotlin `Int` arithmetic wraps to 32 bits and leaves in-range results unchanged |
| Arith.WrapMul | src/day11/day11.kt:73 | wrapping a factor to 32 bits before an `Int` multiplication gives the same wrapped product as wrapping once afterwards |
| Plane.ReadingCompare | src/day15/day15.kt:67-72 | the `readingOrder` comparator is negative, zero or positive exactly when the first position comes before the second in row-then-column order, is the same position, or comes after it |
| Plane.ReadingLessIsStrictTotal | src/day15/day15.kt:67-72 | reading order is irreflexive, asymmetric, total on different positions, and transitive |
| Plane.ManhattanIsMetric | src/day6/day6.kt:29-30 | Manhattan distance is symmetric, and zero exactly when the positions are equal |
| Plane.Extend | src/day10/day10.kt:10-11 | `extend` maps the empty range to `i..i` and otherwise widens the bounds just enough to cover `i`; the old range stays covered |
| Plane.AddPos | src/day10/day10.kt:34 | `Box.plus` gives a box that holds the point and everything the old box held |
| Plane.BoxCells | src/day6/day6.kt:84-85 | the cells of a box are exactly the positions inside both of its ranges |
| Plane.InsertBy | src/day15/day15.kt:180-186 | inserting into a list sorted by reading order keeps it sorted, and adds exactly that element |
| Plane.SortBy | src/day15/day15.kt:180-186 | `sortedWith(readingOrder)` returns a permutation of the input that is sorted by reading order |
| Device.OpsListsEveryOpOnce | src/day16/day16.kt:56-79 | the operations table lists each of the sixteen operations exactly once |
| Device.Get | src/day16/day16.kt:18 | reading a register succeeds exactly when the index is inside the array, and otherwise throws the array-index exception |
| Device.Value | src/day16/day16.kt:56-79 | the value an operation computes exists exactly when every register operand it reads is in range; comparisons yield 0 or 1, `seti` yields `a` and `setr` yields `r[a]` |
| Device.Run | src/day16/day16.kt:56-79 | running an operation succeeds exactly when its operands and `c` are in range; then register c holds the value and every other register is unchanged |
| Device.WrapIsModular | src/day16/day16.kt:57-61 | the wrapped sums and products agree with the exact ones modulo 2^32 |
| Device.CopyIntoSelf | src/day16/day16.kt:69-70 | copying a register into itself, or writing the value it already holds, leaves the registers unchanged |
| Day2.RepeatCounts | src/day2/day2.kt:5-6 | every multiplicity in `repeatCounts` is at least 1, and the set is empty exactly when the ID is empty |
| Day2.RepeatCountsOfSingleLetters | src/day2/day2.kt:5-6 | an ID made of one repeated letter has the single multiplicity equal to its length |
| Day2.DifferenceSymmetric | src/day2/day2.kt:8-9 | `difference` does not depend on the order of the IDs |
| Day2.DifferenceToSelf | src/day2/day2.kt:8-12 | an ID differs from itself nowhere, and `common` of an ID with itself is the ID |
| Day2.CommonPlusDifference | src/day2/day2.kt:8-12 | every index of the zipped prefix is kept by `common` or counted by `difference`: together they make the shorter length |
| Day2.CommonIsAgreeing | src/day2/day2.kt:11-12 | each character of `common` is a character on which both IDs agree at the same index |
| Day2.Pairs | src/day2/day2.kt:14-21 | `pairs` yields n(n-1)/2 pairs for a list of n elements |
| Day2.PairsComplete | src/day2/day2.kt:14-21 | every pair of an element with a later one occurs in `pairs` |
| Day2.PairsSound | src/day2/day2.kt:14-21 | every element of `pairs` is an element with a later one, in list order |
| Day3.MakeClaim | src/day3/day3.kt:13-15 | the secondary constructor's box holds exactly the positions `left..left+width-1` by `top..top+height-1`, and is `width` by `height` for non-negative sizes |
| Day3.Column | src/day3/day3.kt:17-19 | the inner sequence lists column x of the box from top to bottom, one position per row |
| Day3.Positions | src/day3/day3.kt:17-19 | `positions` yields width times height positions, all inside the box |
| Day3.PositionsComplete | src/day3/day3.kt:17-19 | every position of the box is among `positions` |
| Day3.PositionsDistinct | src/day3/day3.kt:17-19 | `positions` never lists a position twice |
| Day3.AddPositionsCount | src/day3/day3.kt:33 | adding a list of distinct positions raises a position's count by one exactly when it is listed |
| Day3.AddClaimsCount | src/day3/day3.kt:33 | adding the claims raises a position's count by the number of claims covering it |
| Day3.MaterialIsCovering | src/day3/day3.kt:32-33 | each position's material count equals the number of claims covering it |
| Day3.Overlap | src/day3/day3.kt:31-34 | the overlap is the number of positions claimed by two or more claims |
| Day3.OverlapAtMostArea | src/day3/day3.kt:32-34 | the number of positions claimed at least twice never exceeds the total claimed area |
| Day3.SingleClaimOverlapsNothing | src/day3/day3.kt:32-34 | a single claim overlaps nothing |
| Day4.InsertEvent | src/day4/day4.kt:11-13 | inserting an event into a log sorted by timestamp keeps it sorted and adds exactly that event |
| Day4.SortEvents | src/day4/day4.kt:70 | `events.sorted()` is a permutation of the log in non-decreasing timestamp order |
| Day4.Sleep | src/day4/day4.kt:61-65 | `Guard.sleep` keeps the id, adds the range's length to the total, and adds exactly one day to each minute in the range and none elsewhere |
| Day4.SleepKeepsConsistent | src/day4/day4.kt:61-65 | a nap that does not run backwards keeps the total minutes asleep equal to the sum of the per-minute day counts |
| Day4.Lookup | src/day4/day4.kt:68-73 | the guard map yields a guard with the asked id, and nothing exactly when no guard has that id |
| Day4.Put | src/day4/day4.kt:74-84 | storing a guard makes it the entry for its id, leaves every other id's entry alone, adds at most one entry, and keeps one entry per id |
| Day4.Step | src/day4/day4.kt:70-90 | a shift start always succeeds and puts that guard (its stored record if any) on duty; falling asleep fails exactly when no guard is on duty and otherwise only puts that guard to sleep at the event's minute, storing nothing; waking fails exactly when nobody is asleep, and otherwise records the nap up to the minute before waking; after a shift start or a wake-up the guard on duty is the record stored under its id and every other id's record is unchanged |
| Day4.StepConsistent | src/day4/day4.kt:70-90 | one interpreted event keeps every stored guard and the current guard consistent, given that naps run forward |
| Day4.StepOpened | src/day4/day4.kt:70-90 | one event keeps every stored guard accounted for by a shift start seen so far |
| Day4.RunFrom | src/day4/day4.kt:70-90 | the fold fails only with the two `IllegalStateException`s; it keeps one entry per id, loses no stored guard, stores every guard whose shift starts later, and stores only guards whose shift started |
| Day4.RunFromConsistent | src/day4/day4.kt:70-90 | the fold from any consistent point yields only consistent guards |
| Day4.StepRecords | src/day4/day4.kt:70-90 | one event keeps every guard's record (stored, or the empty one a first shift opens) equal to that guard's naps among the events seen so far, the guard on duty the one whose shift began last, and a sleeper's sleep minute that of the event before |
| Day4.RunFromRecords | src/day4/day4.kt:70-90 | the fold from a point where every record holds exactly its guard's naps ends with every record holding exactly its guard's naps in the whole log |
| Day4.InitialRecorded | src/day4/day4.kt:68-70 | before the first event the empty map and `State.Initial` hold exactly the (no) naps seen so far |
| Day4.StoredRecords | src/day4/day4.kt:92 | with one record per id, every record in `guards.values` holds exactly its guard's naps |
| Day4.RunEvents | src/day4/day4.kt:67-93 | fails only with the two `IllegalStateException`s; otherwise one guard per id, exactly the guards that began a shift, and each returned guard's total and per-minute day counts are those of the naps the sorted log gives it: a nap is a wake-up right after a fall-asleep, it belongs to the guard whose shift began last, and it covers the minutes from the fall-asleep minute up to the one before the wake-up |
| Day4.RunEventsConsistent | src/day4/day4.kt:67-93 | when every nap of the sorted log runs forward, each guard `runEvents` returns has a total equal to the sum of its per-minute counts |
| Day4.MostMinutesAsleep | src/day4/day4.kt:97-99 | fails exactly on no guards; otherwise the first guard with the largest total |
| Day4.FirstMax | src/day4/day4.kt:98 | `maxBy` over a prefix: the first index whose total is largest |
| Day4.BestMinute | src/day4/day4.kt:102 | among the minutes below n present in the map, one with the largest day count, or none exactly when there is none |
| Day4.MostAsleepMinute | src/day4/day4.kt:101-103 | fails exactly on an empty map; otherwise a minute of the map slept through on the most days |
| Day4.Part1 | src/day4/day4.kt:105-109 | fails exactly when there is no guard or the sleepiest guard never slept; otherwise the answer is the sleepiest guard's id times one of its most-slept minutes |
| Day4.BestEntry | src/day4/day4.kt:115-119 | over the guards up to n, an entry (guard, minute) whose day count no other entry exceeds, or none exactly when no such guard slept |
| Day4.Part2 | src/day4/day4.kt:113-121 | fails exactly when no guard ever slept; otherwise the answer is id times minute for an entry slept through on more days than any other |
| Day5.ReactsMeaning | src/day5/day5.kt:5-6 | reaction is symmetric and irreflexive, and pairs an upper-case letter with its own lower-case form and nothing else |
| Day5.Lower | src/day5/day5.kt:6 | `toLowerCase` maps an upper-case letter to its lower-case form and leaves every other character alone |
| Day5.Reacts | src/day5/day5.kt:5-6 | two units react exactly when one is an upper-case letter and the other its lower-case form |
| Day5.PushStable | src/day5/day5.kt:9-14 | one fold step keeps a stack with no reacting neighbours free of reacting neighbours |
| Day5.Reduce | src/day5/day5.kt:8-14 | the reacted polymer is no longer than the input, shorter by an even number of units, and has no reacting neighbours |
| Day5.RunReactions | src/day5/day5.kt:8-21 | the reacted length is at most the input length and of the same parity |
| Day5.ReduceStable | src/day5/day5.kt:8-14 | a polymer with no reacting neighbours is left unchanged |
| Day5.ReduceIdempotent | src/day5/day5.kt:8-14 | reacting an already reacted polymer changes nothing |
| Day5.RemoveUnits | src/day5/day5.kt:16-17 | the filtered polymer holds exactly the units of the input whose lower-case form differs from `c` |
| Day5.RemoveUnitsCount | src/day5/day5.kt:16-17 | every unit of another type keeps its multiplicity, and units of type `c` are gone |
| Day5.RemoveUnitsConcat | src/day5/day5.kt:16-17 | the filter keeps order: it distributes over concatenation |
| Day5.MinImproved | src/day5/day5.kt:25-26 | the smallest reacted length over the first n+1 letters, attained by one of them |
| Day5.Part2 | src/day5/day5.kt:23-27 | the result is the reacted length after removing some letter 'a'..'z', and no removal gives a shorter one |
| Day6.ExtendAsWritten | src/day6/day6.kt:10 | this file's `extend` has no case for the empty range: the result covers `i` and the old bounds, and each bound is either `i` or the old bound |
| Day6.Plus | src/day6/day6.kt:27 | `Box.plus` gives a box that holds the point and everything the old box held |
| Day6.SpaceExtent | src/day6/day6.kt:53-54 | the extent contains every coordinate; because the fold starts at the empty range `1..0`, its start is at most 1 and its end at least 0 on each axis |
| Day6.MakeSpace | src/day6/day6.kt:84-85 | `makeSpace` has exactly the cells of its box, each holding the initial value |
| Day6.NewCell | src/day6/day6.kt:95-108 | the inner rule: an unclaimed cell is claimed; a strictly nearer coordinate takes over; an equal distance from another coordinate makes a tie; `Coordinate` cells, the coordinate's own claims and farther distances are kept; any change is a strict improvement |
| Day6.Around | src/day6/day6.kt:32-39 | `around` gives the four positions at Manhattan distance 1, never the position itself |
| Day6.FillAt | src/day6/day6.kt:90-115 | outside the box nothing changes; inside, only `p` changes, to its `NewCell` value; the neighbours are returned exactly when the cell changed |
| Day6.AddAll | src/day6/day6.kt:117-120 | adding to the insertion-ordered worklist keeps the old order as a prefix and makes the worklist hold exactly the old and the new positions |
| Day6.FillLoop | src/day6/day6.kt:118-122 | an empty worklist leaves the space as it is; otherwise the loop keeps the space well formed and no cell ever moves farther from the coordinate that claims it, or it runs out of fuel with work left and fails with `OutOfFuel` |
| Day6.Fill | src/day6/day6.kt:87-123 | a whole `fill` only ever brings cells nearer, unless it runs out of fuel |
| Day6.FillAll | src/day6/day6.kt:143 | filling for every coordinate in turn only ever brings cells nearer; no coordinates leave the space as it is, and the first fill that runs out of fuel fails the whole |
| Day6.PlaceSites | src/day6/day6.kt:141 | each coordinate's own cell holds a `Coordinate` cell, and every other cell is unchanged |
| Day6.RowAny | src/day6/day6.kt:133 | the `any` over a row is true exactly when some cell in that stretch of the row is claimed by the id |
| Day6.ColumnAny | src/day6/day6.kt:133 | the `any` over a column is true exactly when some cell in that stretch of the column is claimed by the id |
| Day6.AreaForCoordinate | src/day6/day6.kt:130-137 | the area is `Infinite` exactly when some border cell is claimed by the id, and otherwise `Finite` with the number of cells claimed by it, the `Coordinate` cell included; a space with no rows fails as `first()` does |
| Day6.FiniteAreaBounds | src/day6/day6.kt:130-137 | a finite area counts at least the coordinate's own cell, and at most every cell of the space |
| Day6.FirstBest | src/day6/day6.kt:147-150 | `maxBy` picks a highest score, and the first one among equal scores |
| Day6.FilledSpace | src/day6/day6.kt:140-143 | the space `part1` fills covers exactly the extent of the coordinates and stays well formed; the only failure is running out of fuel |
| Day6.Areas | src/day6/day6.kt:139-145 | fails exactly when the filling runs out of fuel; otherwise one area per coordinate, in input order, each being `areaForCoordinate` on the filled space |
| Day6.Part1 | src/day6/day6.kt:139-151 | no answer without coordinates; a failure exactly when the filling runs out of fuel; otherwise one of the coordinates' areas whose score no other area beats |
| Day6.FillDistances | src/day6/day6.kt:153-160 | after the two loops every cell of the box holds its summed distance to all coordinates |
| Day6.NearCellsMonotone | src/day6/day6.kt:162-167 | a larger limit never counts fewer cells, and no limit counts more cells than the box holds |
| Day6.Part2 | src/day6/day6.kt:162-167 | `part2` counts exactly the cells of the extent whose summed distance to all coordinates is below the limit |
| Day7.Dedup | src/day7/day7.kt:25 | `toSet()` in first-appearance order: exactly the names of the list not already seen, each once |
| Day7.AllNames | src/day7/day7.kt:24-25 | every name that occurs as a `before` or an `after` of some instruction, each once |
| Day7.Initials | src/day7/day7.kt:27-28 | exactly the names no instruction waits on, i.e. the steps available before anything is emitted, each once |
| Day7.SortNames | src/day7/day7.kt:49 | `sorted()` is a permutation of the names in ascending order |
| Day7.From | src/day7/day7.kt:31-47 | the instructions leaving a step, in order |
| Day7.NotFrom | src/day7/day7.kt:36-47 | the instructions not leaving a step; the two halves of the partition together have the graph's size |
| Day7.Freed | src/day7/day7.kt:39-48 | the targets of the removed instructions that nothing left in the graph points to |
| Day7.NextStack | src/day7/day7.kt:46-49 | the next stack drops the emitted step and adds at most one name per removed instruction |
| Day7.SortStepsExtends | src/day7/day7.kt:42-51 | `sort` only appends to the result, and its next output is the head of the stack |
| Day7.StepKeepsInvariant | src/day7/day7.kt:46-50 | one step keeps the graph equal to the instructions from unemitted steps and the stack equal to the available steps, both without repeats |
| Day7.SortStepsHistory | src/day7/day7.kt:42-51 | every step `sort` emits was available when emitted, and when it stops nothing is available |
| Day7.SortStepsSmallest | src/day7/day7.kt:42-51 | after its first output, each step `sort` emits is the alphabetically smallest available one |
| Day7.OrderSpec | src/day7/day7.kt:42-53 | for distinct instructions, started from the available steps: every step is emitted when available, the smallest available one after the first (and first too when the start is sorted), no step repeats, nothing stays available, and every name is emitted exactly when the instructions have no cycle |
| Day7.TopologicalOrderAsWritten | src/day7/day7.kt:30-54 | for distinct instructions, with the initials in first-appearance order: every step is emitted when available, the smallest choice holds from the second step on, nothing stays available, no step repeats, and every step is emitted exactly when the instructions have no cycle |
| Day7.InitialStackUnsorted | src/day7/day7.kt:53 | on "C before A, B before A" the as-written order is CBA although B is available and smaller than C |
| Day7.TopologicalOrder | src/day7/day7.kt:30-54 | for distinct instructions, with the initial stack sorted: every step is the smallest available one, nothing stays available, no step repeats, and every step is emitted exactly when the instructions have no cycle |
| Day7.SortedInitialsExample | src/day7/day7.kt:30-54 | on the same example the corrected order is BCA |
| Day7.BeforeIsEmittedFirst | src/day7/day7.kt:30-54 | in any order emitted by availability, each instruction's `before` comes before its `after` |
| Day7.EmittedOnce | src/day7/day7.kt:30-54 | no step is emitted twice |
| Day7.CycleNeverEmitted | src/day7/day7.kt:30-54 | no name on a cycle of instructions is ever emitted |
| Day7.Part1 | src/day7/day7.kt:56-58 | part 1 is the order as written, with all its properties |
| Day7.Part1Example | src/day7/day7.kt:56-58 | on "C before A, B before A" part 1 answers CBA |
| Day7.WalkPrepend | src/day7/day7.kt:30-54 | a walk backwards along the instructions extends by one instruction into its first name |
| Day7.WalkCloses | src/day7/day7.kt:30-54 | a walk that returns to its first name is a cycle |
| Day7.StuckWalk | src/day7/day7.kt:30-54 | when nothing is available, a walk over unemitted names can be extended until it closes into a cycle |
| Day7.OrderComplete | src/day7/day7.kt:30-54 | an order that emits only available steps and stops when nothing is available emits every name exactly when there is no cycle |
| Day7.RepeatedInstructionRepeatsStep | src/day7/day7.kt:44-53 | a repeated instruction pushes its target twice, so "A before B" twice gives ABB |
| Day7.Befores | src/day7/day7.kt:25 | the list of `before` names holds exactly the names that some instruction has as its `before` |
| Day7.Afters | src/day7/day7.kt:25-28 | the list of `after` names holds exactly the names that some instruction has as its `after` |
| Day7.Without | src/day7/day7.kt:28 | set difference: a name survives exactly when it is in the first list and not the second, and distinct names stay distinct |
| Day7.Insert | src/day7/day7.kt:49 | inserting into a sorted stack keeps it sorted and adds exactly that name to its contents |
| Day7.StepGraph | src/day7/day7.kt:47 | after removing the edges out of the emitted step, the graph holds exactly the input edges whose source has not been emitted |
| Day7.StackSound | src/day7/day7.kt:48-49 | every name the step pushes has become available: all its predecessors are emitted and it is not |
| Day7.StackComplete | src/day7/day7.kt:48-49 | every name that the emitted step makes available is pushed by that step |
| Day7.FirstIsSmallest | src/day7/day7.kt:46-49 | the head of the sorted stack is the alphabetically smallest available step |
| Day8.DecodeNode | src/day8/day8.kt:18-30 | `tree` fails on fewer than two numbers and on a negative metadata count; a decoded node has as many children as the header asks (none for a negative count) and at most the requested metadata, fewer only when the input ran out |
| Day8.DecodeChildren | src/day8/day8.kt:22-25 | the fold decodes exactly k children, each from the remainder its predecessor left |
| Day8.DecodeEncode | src/day8/day8.kt:18-30 | decoding the serialisation of any tree followed by anything gives back the tree and exactly the trailing input |
| Day8.DecodeEncodeAll | src/day8/day8.kt:22-25 | decoding k serialised children gives back those children and the trailing input |
| Day8.MetadataTotal | src/day8/day8.kt:15-16 | `metadataTotal` is the sum of every metadata entry of the tree, in serialisation order |
| Day8.ChildrenTotal | src/day8/day8.kt:16 | the fold over the children sums all their metadata |
| Day8.EncodeLength | src/day8/day8.kt:18-30 | a serialised tree takes two numbers per node plus one per metadata entry |
| Day8.EncodeAllLength | src/day8/day8.kt:22-25 | the same count for a list of children |
| Day8.Part1 | src/day8/day8.kt:32 | succeeds exactly when the root decodes, and is then the sum of all the tree's metadata |
| Day8.Part1OfEncoding | src/day8/day8.kt:32 | part 1 of any serialised tree is the sum of its metadata |
| Day9.Ring | src/day9/day9.kt:3-12 | the circle read clockwise from the current node visits every node once, starting at the current one |
| Day9.Plus | src/day9/day9.kt:24-29 | `plus(n)` keeps the nodes, and reading k from it is reading n+k from the original, for either sign of n |
| Day9.Minus | src/day9/day9.kt:31-36 | `minus(n)` keeps the nodes, and reading k from it is reading k-n from the original |
| Day9.PlusMinusLaws | src/day9/day9.kt:24-36 | moving by a then b is moving by a+b, moving by 0 stays put, and `minus(a)` is `plus(-a)` |
| Day9.RingIndex | src/day9/day9.kt:14-17 | `get(k)` is the k-th node clockwise |
| Day9.Set | src/day9/day9.kt:19-22 | `set(n, v)` keeps the current node and the size, and afterwards `get(n)` is v |
| Day9.RingSetCurrent | src/day9/day9.kt:19-22 | setting the current node replaces the head of the ring |
| Day9.CreditAndPass | src/day9/day9.kt:75-76 | crediting the current player and passing the turn moves that player, with the gain, to the back of the ring |
| Day9.InsertClockwise | src/day9/day9.kt:38-43 | the new node becomes current and sits just after the old current node, so the ring reads v, the rest, then the old current node |
| Day9.InsertAnticlockwise | src/day9/day9.kt:45-50 | the new node becomes current and sits just before the old current node |
| Day9.Remove | src/day9/day9.kt:52-58 | removing the only node throws `IllegalStateException`; otherwise the ring loses exactly its current node and the clockwise neighbour becomes current |
| Day9.Take | src/day9/day9.kt:60-65 | `take(n)` lists the next n nodes clockwise for n >= 0, and the last -n nodes ending at the current one for n < 0 |
| Day9.TakeIsRing | src/day9/day9.kt:60-65 | taking at most the size is a prefix of the clockwise ring |
| Day9.Scores | src/day9/day9.kt:70 | the score circle holds one zero per player, and a single zero when there are fewer than two players |
| Day9.Turn | src/day9/day9.kt:72-82 | an ordinary marble is placed two steps clockwise; a multiple of 23 fails exactly on a one-node circle, otherwise removes the marble 7 anticlockwise and credits the current player with both; the player advances and no other score changes |
| Day9.Score | src/day9/day9.kt:74-77 | a multiple of 23 fails exactly on a one-node circle; otherwise the marble 7 anticlockwise leaves the circle and the mover is credited with both marbles and moved to the back of the score ring |
| Day9.Credit | src/day9/day9.kt:75-76 | `player[0] += gain` then `player + 1`: the size stays, the previous node now holds the old score plus the gain, and the ring is rotated by one with only that score changed |
| Day9.Place | src/day9/day9.kt:78-80 | an ordinary marble is inserted between the nodes 1 and 2 clockwise and becomes current; the score ring rotates by one and no score changes |
| Day9.RingPlusOne | src/day9/day9.kt:24-29 | one step clockwise rotates the ring by one |
| Day9.InsertTwoAhead | src/day9/day9.kt:79 | `(circle + 1).insertClockwise(m)` puts m just before the marble that was two clockwise |
| Day9.Play | src/day9/day9.kt:69-82 | all marbles play without error; after m marbles the circle has 1 + m - 2·(m/23) nodes and the score circle keeps its size |
| Day9.Game | src/day9/day9.kt:68-85 | fails exactly with no players; with players it returns a score on the score circle no other score exceeds |
| Day9.MaxOf | src/day9/day9.kt:84 | `maxBy` returns an element no other element exceeds |
| Day10.Integrate | src/day10/day10.kt:30-32 | integrating for t lands where t single steps of the velocity do, forwards or backwards |
| Day10.DriftIsLinear | src/day10/day10.kt:30-32 | t single steps of the velocity move the point by velocity times t |
| Day10.IntegrateAdditive | src/day10/day10.kt:30-32 | integrating for t1 and then, from there, for t2 lands where integrating for t1+t2 does |
| Day10.BoundingBox | src/day10/day10.kt:34-36 | the folded box is the empty box for no positions and contains every position |
| Day10.BoundingBoxTight | src/day10/day10.kt:34-36 | for some positions the box is non-empty and each of its four bounds is attained by one of them |
| Day10.Positions | src/day10/day10.kt:69-71 | the i-th position at time t is the i-th point integrated to t |
| Day10.FirstSmallest | src/day10/day10.kt:70 | `minBy` over a time range: the earliest time whose value is least |
| Day10.Blank | src/day10/day10.kt:61 | a height by width grid of `.` |
| Day10.Paint | src/day10/day10.kt:62-64 | a cell becomes `#` exactly when a position maps to it, other cells keep their old value, and the shape is kept |
| Day10.Render | src/day10/day10.kt:59-66 | for some positions the rows have the bounding box's size, and a cell is `#` exactly when a position lies there; no positions render nothing |
| Day10.JoinLines | src/day10/day10.kt:65 | no rows join to the empty string and one row to itself; otherwise the text is as long as the rows together plus one newline between each two neighbours, and starts with the first row |
| Day10.SplitJoin | src/day10/day10.kt:65 | when no row holds a newline, cutting the joined text at its newlines gives back exactly the rows |
| Day10.SplitAfter | src/day10/day10.kt:65 | text without a newline stays whole in the first piece of the split |
| Day10.SolveWithin | src/day10/day10.kt:68-73 | the earliest time in 1..last at which the bounding box's area is least, with the rendered image at that time |
| Day10.Solve | src/day10/day10.kt:68-73 | the same over times 1 to 100000 |
| Day11.Hundreds | src/day11/day11.kt:53 | `hundreds` lies in 0..9 for a non-negative number and in -9..0 for a negative one |
| Day11.HundredsIsDigit | src/day11/day11.kt:53 | for a non-negative number `hundreds` is its decimal hundreds digit: the last three digits are that digit times 100 plus the last two |
| Day11.Power | src/day11/day11.kt:73 | with the `Int` product wrapped, the power of any cell lies in -14..4, and in -5..4 on the grid for a serial number from 0 up to 6834366, where nothing wraps |
| Day11.ProductFits | src/day11/day11.kt:73 | on the 300 by 300 grid with a serial number from 0 up to 6834366, `(startLevel + serial) * rackId` is non-negative and fits in `Int` |
| Day11.PowerWrapsStepwise | src/day11/day11.kt:73 | wrapping `startLevel + serial` to `Int` before multiplying by `rackId`, as the source's `Int` addition does, gives the same power |
| Day11.LargeSerialWraps | src/day11/day11.kt:73 | with serial 7000000 the product at (300, 300) wraps and that cell's power is -7, outside -5..4 |
| Day11.XRange | src/day11/day11.kt:30 | `xRange` holds exactly the columns `x .. x+size-1`, `size` of them (none for a negative size) |
| Day11.YRange | src/day11/day11.kt:31 | `yRange` holds exactly the rows `y .. y+size-1` |
| Day11.Nines | src/day11/day11.kt:55-58 | `nines` lists 298·298 squares of size 3, each fitting inside the 300 by 300 grid |
| Day11.NinesComplete | src/day11/day11.kt:55-58 | every fitting 3 by 3 square occurs in `nines`, at the index its row and column give |
| Day11.NinesInReadingOrder | src/day11/day11.kt:55-58 | `nines` is in reading order of the top-left corners, so `maxBy` picks the first square in reading order among ties |
| Day11.RowAtomsCount | src/day11/day11.kt:43 | the last-row atoms hold each cell of that row segment once and nothing else |
| Day11.ColumnAtomsCount | src/day11/day11.kt:44 | the last-column atoms hold each cell of that column segment once and nothing else |
| Day11.OccurrencesConcat | src/day11/day11.kt:33-46 | occurrences in a concatenation of yielded parts add up |
| Day11.Half | src/day11/day11.kt:37-42 | `size / 2` and `size and 1` split a size as twice the quarter plus the parity bit |
| Day11.HalfIsDivision | src/day11/day11.kt:37-42 | the quarter size and the parity bit are the quotient and remainder of division by 2 |
| Day11.EdgesAsWrittenOccurrences | src/day11/day11.kt:42-45 | the extra atoms of an odd square as written hold the last row and the last column, each cell once, except the corner which they hold twice |
| Day11.EdgesOccurrences | src/day11/day11.kt:42-45 | with the column stopping above the corner, each cell of the last row and column is held once |
| Day11.CountAsWrittenIsOccurrences | src/day11/day11.kt:33-46 | the as-written decomposition holds each cell as many times as the count over its shape says |
| Day11.CountAsWrittenOutside | src/day11/day11.kt:33-46 | the as-written decomposition never holds a cell outside the square |
| Day11.OddSquareCountsCornerTwice | src/day11/day11.kt:42-45 | as written, an odd square of size 3 or more holds its bottom-right cell twice, so its power counts that cell twice |
| Day11.QuartersPartition | src/day11/day11.kt:37-45 | the four quarters, the last row and the last column above the corner split the square: every cell lies in exactly one part |
| Day11.FlattenCoversBlockOnce | src/day11/day11.kt:33-46 | the corrected decomposition holds each cell of the square exactly once and nothing outside it |
| Day11.DoubleAlign | src/day11/day11.kt:11-15 | a cursor aligned to `bit` becomes aligned to `2·bit` after taking the step when that bit is set, and already is when it is not |
| Day11.AppendStep | src/day11/day11.kt:12-21 | yielding an aligned step keeps the steps aligned and adds it to their sum |
| Day11.Grow | src/day11/day11.kt:10-16 | one pass of the first loop takes the step `bit` exactly when that bit of the cursor is set, keeping the cursor aligned, then doubles `bit` |
| Day11.Shrink | src/day11/day11.kt:17-23 | one pass of the second loop halves `bit` and takes it exactly when it still fits before the end |
| Day11.Steps | src/day11/day11.kt:6-24 | `steps` yields powers of two, each aligned to its size at its starting point; on a non-empty range they tile it exactly, and on an empty one the first bit test still yields 1 when the start is odd |
| Day11C.CellMatchesKotlin | src/day11/day11.c:6-11 | the C `cell`, with its `int` product wrapped, and the Kotlin power of an atom agree everywhere |
| Day11C.Fill | src/day11/day11.c:13-19 | after `fill`, every cell of 1..300 by 1..300 holds its power and row 0 and column 0 stay zero |
| Day11C.RowSumBounds | src/day11/day11.c:21-29 | w cells each within lo..hi sum to within lo·w..hi·w |
| Day11C.BlockSumBounds | src/day11/day11.c:21-29 | h rows each within lo..hi sum to within lo·h..hi·h |
| Day11C.FilledCellBounds | src/day11/day11.c:6-19 | every entry of the filled grid lies in -14..4 for any serial number, and in -5..4 for a serial number from 0 up to 6834366 |
| Day11C.TotalBounds | src/day11/day11.c:21-29 | a square totals at most 4 times its cell count and at least -14 times it, or -5 times it for a serial number from 0 up to 6834366 |
| Day11C.SquareWithin | src/day11/day11.c:21-29 | when every cell of the grid lies in lo..4, a size by size square totals within lo..4 times its cell count |
| Day11C.Square | src/day11/day11.c:21-29 | the nested loops return the sum of the size by size block at (x, y), given every index stays inside the array |
| Day11C.ScanRow | src/day11/day11.c:43-50 | the inner loop keeps the maximum, changing it only to the first square of the row with a strictly larger total |
| Day11C.Scan | src/day11/day11.c:42-71 | the loops for one size leave a maximum no square of that size exceeds; a changed maximum is the first such square in reading order |
| Day11C.Part1 | src/day11/day11.c:40-54 | the result is at least 0, no 3 by 3 square totals more, and a positive result is the first 3 by 3 square in reading order with that total |
| Day11C.Part2 | src/day11/day11.c:56-75 | no square of any size totals more than the result; a positive result is a square of its size, first in reading order, and every larger size totals strictly less |
| Day12.Pack | src/day12/day12.kt:11-12 | the fold `(v shl 1) or bit` packs n pots into a number in 0..2^n-1 |
| Day12.PackFive | src/day12/day12.kt:11-12 | five pots pack to 16, 8, 4, 2 and 1 times their bits, most significant first |
| Day12.FiveDigits | src/day12/day12.kt:14 | the bit tests of `toString` recover the five binary digits of such a value |
| Day12.BitsOfPack | src/day12/day12.kt:11-14 | unpacking a packed five-pot pattern gives the pattern back |
| Day12.PackOfBits | src/day12/day12.kt:11-14 | packing the five bits of a value below 32 gives the value back |
| Day12.RenderPack | src/day12/day12.kt:13-14 | `toString` of a region built from five pots draws exactly those pots |
| Day12.PlantSumNone | src/day12/day12.kt:21 | empty pots add nothing to the sum, wherever they are |
| Day12.PlantSumConcat | src/day12/day12.kt:21 | the sum over two adjoining stretches of pots is the sum of their sums |
| Day12.Sum | src/day12/day12.kt:21 | the sum is the total of the pot numbers that hold a plant |
| Day12.PlantSumIsPotsSum | src/day12/day12.kt:21 | the indexed sum over a stretch of the row is the total of its planted pot numbers |
| Day12.Neighbourhood | src/day12/day12.kt:58-62 | the five pots centred on a pot, with every pot outside the row empty |
| Day12.Next | src/day12/day12.kt:58-66 | a pot gets a plant exactly when some rule matching its neighbourhood says so; a missing rule means empty |
| Day12.Output | src/day12/day12.kt:58-66 | the padded row yields four more windows than it has pots |
| Day12.OutputIsNext | src/day12/day12.kt:58-66 | window i of the padded row is centred on pot `origin - 2 + i` and gets the rule for that pot's neighbourhood, no rule meaning empty |
| Day12.OutputAllNext | src/day12/day12.kt:58-66 | every window of the padded row is the rule outcome for the pot it is centred on |
| Day12.DropTrailing | src/day12/day12.kt:67 | `dropLastWhile { !it }` removes only trailing empty pots and leaves a row that is empty or ends in a plant |
| Day12.Settle | src/day12/day12.kt:69-73 | indexing an empty output fails; otherwise the new row drops at most two leading empty pots, moves the origin to match, ends in a plant, and holds every pot of the output at its number |
| Day12.SettleSum | src/day12/day12.kt:69-73 | dropping leading empty pots does not change the sum |
| Day12.Run | src/day12/day12.kt:57-74 | a successful generation ends in a plant, starts at most two pots left of the old origin, and reaches at most two pots past the old end |
| Day12.RunFailsWhenAllDie | src/day12/day12.kt:64-72 | a generation fails exactly when no pot within two of the row grows a plant |
| Day12.RunMeaning | src/day12/day12.kt:57-74 | after a generation every pot within two of the old row holds what the rule for its neighbourhood says |
| Day12.RunSum | src/day12/day12.kt:57-74 | the sum after a generation is the sum of the pots the rules planted |
| Day12.IterateAdd | src/day12/day12.kt:76-77 | n generations followed by m are n+m generations, and a failure ends the run |
| Day12.GameRun | src/day12/day12.kt:76-77 | with no generations to run the answer is the initial row's sum |
| Day12.GameRunStep | src/day12/day12.kt:57-77 | generation n+1 fails exactly when generation n failed or every plant dies, and otherwise its sum is that of the pots the rules planted |
| Day12.IterateFailsWhenDies | src/day12/day12.kt:76-77 | n generations fail exactly when every plant dies in one of the first n |
| Day12.Part1 | src/day12/day12.kt:79 | fails exactly when every plant dies within 20 generations; otherwise the sum after 20 generations |
| Day13.TurnBy | src/day13/day13.kt:71-85 | going straight keeps the heading, and a left or right turn rotates the heading vector by a quarter turn (y grows downwards) |
| Day13.TurnsCompose | src/day13/day13.kt:71-85 | a left turn undoes a right turn and the other way round, going straight keeps the direction, four left turns come back to it, and neither turn keeps it |
| Day13.NextTurn | src/day13/day13.kt:87-91 | the intersection plan advances left, straight, right, left, and so on |
| Day13.NextTurnCycles | src/day13/day13.kt:87-91 | intersections cycle left, straight, right, and every turn comes back after three |
| Day13.CurvesAreInvolutions | src/day13/day13.kt:95-106 | each curve is its own inverse and swaps vertical and horizontal travel |
| Day13.Adjust | src/day13/day13.kt:93-110 | the plan on leaving a track piece: an intersection turns as planned and advances the turn, a curve bends the direction, a straight keeps the plan, and any other character throws |
| Day13.Apply | src/day13/day13.kt:112-117 | a move goes exactly one cell, upwards for Up (y grows downwards), and so on for the other directions |
| Day13.Move | src/day13/day13.kt:119-122 | a cart moves exactly when it stands on the map on a track piece, keeping its id, clearing its collision mark, and advancing one cell under the adjusted plan |
| Day13.TrackUnder | src/day13/day13.kt:46 | the track written under a cart is never a cart glyph |
| Day13.RowCartsSound | src/day13/day13.kt:37-42 | each cart of a row stands on a cart glyph, is numbered on from the carts before it, heads the way the glyph points, and the row's carts run left to right |
| Day13.AllCartsSound | src/day13/day13.kt:36-43 | the carts of the map are numbered 0, 1, ... and each is made from the glyph it stands on |
| Day13.AllCartsOrdered | src/day13/day13.kt:36-43 | the loaded carts are strictly in reading order |
| Day13.RowCartsComplete | src/day13/day13.kt:37-42 | every cart glyph of a row becomes a cart at its position |
| Day13.AllCartsComplete | src/day13/day13.kt:36-43 | every cart glyph of the map becomes a cart at its position |
| Day13.Load | src/day13/day13.kt:25-50 | `load` keeps the map's shape, replaces every cart glyph by track, keeps every other character, and makes the map's carts |
| Day13.LoadIdsDistinct | src/day13/day13.kt:41 | the loaded carts have distinct ids |
| Day13.ScanOrder | src/day13/day13.kt:124 | `cartsInScanOrder` is a permutation of the carts sorted by row, then column |
| Day13.Without | src/day13/day13.kt:139 | `filter { it != c }` keeps exactly the other carts, and changes nothing when c is absent |
| Day13.WithoutOne | src/day13/day13.kt:164 | with distinct ids, filtering out a present cart removes exactly one cart and every remaining id differs from its id |
| Day13.CollidedWithout | src/day13/day13.kt:139 | filtering never adds a collided cart, and some cart is collided exactly when the count is positive |
| Day13.CheckCollisions | src/day13/day13.kt:129-135 | the cart keeps its id, place and plan, and is marked exactly when it already was, or no cart is marked yet and another cart shares its cell |
| Day13.DetectStep | src/day13/day13.kt:138-141 | a fold step fails exactly when the cart cannot move; otherwise the other carts stay as they were, in order, and the moved cart (same id, moved cell and plan) joins the end, marked exactly when no other cart is marked yet and one stands on its new cell; never lets a second cart be marked |
| Day13.TickDetecting | src/day13/day13.kt:137-143 | a tick fails exactly when some cart of the scan order cannot move, keeps the tracks, and leaves at most one marked cart when there was at most one |
| Day13.DetectFold | src/day13/day13.kt:138-141 | the fold fails exactly when some cart of the order cannot move, and never lets a second cart be marked |
| Day13.FirstLanding | src/day13/day13.kt:130-135 | the first cart from a given one on whose move lands on a cell another cart stands on (earlier carts already moved, later ones not yet), or past the end when none does |
| Day13.Marked | src/day13/day13.kt:137-143 | the reference tick: the carts in scan order, each moved, and marked exactly when it is the first of the tick to land on another cart |
| Day13.MarkedCollisions | src/day13/day13.kt:129-135 | in the reference tick some cart is marked exactly when some cart lands on another, and no two carts are marked |
| Day13.WithoutConcat | src/day13/day13.kt:139 | `filter { it != c }` over two lists joined is the two filtered lists joined |
| Day13.WithoutMultiset | src/day13/day13.kt:139 | `filter { it != c }` drops every copy of the cart and keeps every other cart as often as it was there |
| Day13.PermutedIdsDistinct | src/day13/day13.kt:124 | sorting carts with distinct ids keeps their ids distinct |
| Day13.PendingCarts | src/day13/day13.kt:138-139 | during the fold the carts not yet moved are exactly the carts later in scan order |
| Day13.LandsIff | src/day13/day13.kt:132-135 | the cart whose turn it is finds another cart on its new cell in the fold's list exactly when it lands on another cart in the reference |
| Day13.UnmarkedIff | src/day13/day13.kt:130-131 | no cart of the fold's list is marked yet exactly when no earlier cart of the tick landed on another |
| Day13.PendingStep | src/day13/day13.kt:139 | the cart whose turn it is is not among the moved ones, and after its turn the carts still to move are the later ones |
| Day13.StepAppendsMark | src/day13/day13.kt:139-140 | the fold step keeps the list before it and appends exactly the reference's moved and marked cart |
| Day13.DetectStepMarks | src/day13/day13.kt:138-141 | one fold step turns the state before a cart's turn into the state before the next cart's turn |
| Day13.DetectFrom | src/day13/day13.kt:138-141 | from the state before any cart's turn the rest of the fold ends in the reference tick |
| Day13.DetectStart | src/day13/day13.kt:138 | a model with distinct ids and no mark, in scan order, is where the fold starts |
| Day13.TickDetectingMeaning | src/day13/day13.kt:137-143 | from a model with distinct ids and no mark, when every cart can move, the tick is the reference tick: every cart moves one cell under its adjusted plan, and the first cart in scan order to land on another cart (earlier carts already moved, later ones not) is marked and no other is; some cart is marked exactly when some cart lands on another |
| Day13.Collision | src/day13/day13.kt:156 | `collision` finds the first other cart on the same cell, or none exactly when there is none |
| Day13.RemoveStep | src/day13/day13.kt:159-171 | a cart already removed changes nothing; otherwise the step fails exactly when the cart cannot move; when no other cart stands on its new cell the list is the other carts followed by the moved cart; otherwise the list is the other carts without the first of them on that cell, so both crashed carts are gone; every cart left is an old one other than this cart, or the moved cart; ids stay distinct and carts on separate cells stay so |
| Day13.RemoveFold | src/day13/day13.kt:159-171 | the fold keeps ids distinct, removes carts two at a time, leaves only carts never up to move or moved forms of carts that were, and keeps carts on separate cells when they started so |
| Day13.TickRemoving | src/day13/day13.kt:158-173 | a removal tick keeps the tracks and ids distinct and removes an even number of carts |
| Day13.SurvivorsStep | src/day13/day13.kt:159-171 | a cart left after the rest of the fold was left by the step, so it is an old cart not yet up to move or a moved one |
| Day13.SurvivorsMoved | src/day13/day13.kt:158-173 | when every cart is up to move, every survivor is a moved cart of the model |
| Day13.TickRemovingMeaning | src/day13/day13.kt:158-173 | every survivor of a removal tick is a moved cart of the model, and when no two carts shared a cell before, none do after: both carts of every crash are gone |
| Day13.LoadApart | src/day13/day13.kt:36-43 | the loaded carts stand on different cells |
| Day13.FirstCollided | src/day13/day13.kt:151 | the first marked cart, or none exactly when no cart is marked |
| Day13.FirstMarked | src/day13/day13.kt:151 | when a cart is marked, the first marked cart in scan order |
| Day13.UntilCollision | src/day13/day13.kt:147-150 | the timeline stops at a model with a marked cart and keeps the tracks |
| Day13.Part1 | src/day13/day13.kt:147-152 | succeeds exactly when the timeline reaches a collision, and answers the cell of a marked cart |
| Day13.UntilOneLeft | src/day13/day13.kt:175-178 | the removal timeline stops at no more than one cart, having removed an even number |
| Day13.OneLeftMeansOdd | src/day13/day13.kt:175-180 | ending with one cart needs an odd number of carts to start with |
| Day13.Part2 | src/day13/day13.kt:175-180 | an even number of carts always fails (`first()` on no carts); a success is the position of the one remaining cart |
| Day13.LastCartPos | src/day13/day13.kt:177-179 | on an end model of one cart, its position; on none, which an even start forces, `first()` throws |
| Day14.Digits | src/day14/day14.kt:12 | `toString().toCharArray()` of a sum below 100: one or two decimal digits, one exactly below 10, and no leading zero |
| Day14.DigitsRoundTrip | src/day14/day14.kt:12 | reading the digits back gives the sum |
| Day14.Start | src/day14/day14.kt:4-10 | the board starts with two recipes, both elves on one of them |
| Day14.Step | src/day14/day14.kt:12-16 | one pass appends the digits of the two current scores' sum (one or two recipes) and moves each elf forward by one plus its score, wrapping round the new length |
| Day14.Grow | src/day14/day14.kt:11-17 | the loop only appends, stops with at least `target` recipes, and overshoots by at most one |
| Day14.Text | src/day14/day14.kt:18 | `joinToString("")` writes each digit as its character |
| Day14.Part1 | src/day14/day14.kt:3-19 | fails exactly for a negative count; otherwise ten digit characters, the scores of recipes make..make+9 of the grown board |
| Day14.Scoreboard | src/day14/day14.kt:4-17 | the in-buffer loop ends with the step-by-step board and never needs more than make+11 of its make+20 cells |
| Day14.FirstStep | src/day14/day14.kt:12-16 | the first pass turns 3, 7 into 3, 7, 1, 0 with the elves on 0 and 1 |
| Day15.Plus | src/day15/day15.kt:20-25 | a step in any direction lands exactly one cell away |
| Day15.NeighboursAreUnitSteps | src/day15/day15.kt:27-28 | a cell is a neighbour exactly when it is at Manhattan distance one, the relation is symmetric, and the four neighbours come in reading order |
| Day15.AttackCompare | src/day15/day15.kt:74-75 | the comparator is negative, positive or zero exactly when the first creature comes before, after or level with the second (fewer hit points, then reading order) |
| Day15.GoalCompare | src/day15/day15.kt:77-78 | the comparator is negative, positive or zero exactly when the first goal is nearer, farther or level (distance, then end cell in reading order) |
| Day15.Weakest | src/day15/day15.kt:128 | `minWith(attackOrder)` is absent only for no targets; otherwise it is a target no other comes before, and the first such in the list |
| Day15.WeakestOvertakes | src/day15/day15.kt:128 | a later creature that beats the minimum so far beats every earlier one |
| Day15.Nearest | src/day15/day15.kt:137 | `minWith(shortestDistance)` is absent only for no goals; otherwise it is a goal no other comes before, and the first such in the list |
| Day15.NearestOvertakes | src/day15/day15.kt:137 | a later goal that beats the minimum so far beats every earlier one |
| Day15.RowPositions | src/day15/day15.kt:34 | one row holds the cells `(0, y)` to `(width-1, y)` in order |
| Day15.PositionsInBox | src/day15/day15.kt:32-35 | `positions` lists exactly the cells of the box, strictly in reading order |
| Plane.CellAt | src/day15/day15.kt:42 | reading a cell succeeds exactly inside a row and gives that character (the same lookup as the track lookup `tracks[y][x]` of day 13) |
| Day15.ScanFailsOnBadCell | src/day15/day15.kt:41-49 | the fold succeeds exactly when every cell lies inside its row and holds one of `.#EG` |
| Day15.ScanWalls | src/day15/day15.kt:44 | the walls collected are exactly the scanned cells holding `#` |
| Day15.ScanCreaturesSound | src/day15/day15.kt:45-46 | every creature collected is numbered by its place, stands on an `E` or `G` cell, and has 200 hit points and the power of its kind |
| Day15.ScanCreaturesComplete | src/day15/day15.kt:45-46 | every scanned `E` or `G` cell yields a creature on it |
| Day15.ScanCreaturesOrdered | src/day15/day15.kt:41-49 | cells scanned in reading order give creatures in reading order |
| Day15.ParseMeaning | src/day15/day15.kt:37-52 | `parse` of the already split and trimmed rows fails exactly on no rows or a bad cell (the source never meets "no rows", since the lines of a trimmed string are at least one); the size is the row count by the longest row; the open cells are the cells of the box that are not `#`; the creatures are as scanned and in reading order |
| Day15.ParseFindsEveryCreature | src/day15/day15.kt:41-51 | every `E` or `G` of the box becomes a creature of the cave |
| Day15.ParsedCaveIsValid | src/day15/day15.kt:37-52 | a parsed cave is valid: creatures alive, on open cells, with distinct ids and cells |
| Day15.SpawnedInOrder | src/day15/day15.kt:45-46 | creatures numbered by place and standing in reading order have distinct ids and cells |
| Day15Path.WithinGrows | src/day15/day15.kt:84-107 | a cell reachable in `j` steps is reachable in any larger budget |
| Day15Path.WithinBounded | src/day15/day15.kt:84-107 | only allowed cells and the start are reachable |
| Day15Path.WithinSound | src/day15/day15.kt:84-107 | a cell reachable by the step relation has a walk to it of at most `k` steps |
| Day15Path.WithinComplete | src/day15/day15.kt:84-107 | the end of every walk of at most `k` steps is reachable by the step relation |
| Day15Path.ConnectedIsWithin | src/day15/day15.kt:84-107 | a walk of at most `k` steps exists exactly when the cell is reachable in `k` steps |
| Day15Path.WithinSettles | src/day15/day15.kt:84-107 | once a budget adds nothing, no larger budget adds anything |
| Day15Path.RingGrows | src/day15/day15.kt:84-107 | until the search settles each ring strictly contains the one before |
| Day15Path.GrowingRings | src/day15/day15.kt:84-107 | after `n` unsettled rings the ring holds at least `n + 1` cells |
| Day15Path.RingsSettle | src/day15/day15.kt:84-107 | the rings settle before their number exceeds the allowed cells plus one |
| Day15Path.WithinLastRing | src/day15/day15.kt:84-107 | everything reachable at all is reachable within that bound |
| Day15Path.ReachIsWithin | src/day15/day15.kt:84-107 | the frontier expansion holds exactly the cells reachable in `k` steps |
| Day15Path.Search | src/day15/day15.kt:84-107 | the ring found is the first that holds the end; no ring up to the fuel holds it when none is found |
| Day15Path.RingFound | src/day15/day15.kt:84-107 | a ring found gives a walk of that length and no shorter walk exists |
| Day15Path.RingAbsent | src/day15/day15.kt:84-107 | with no ring found there is no walk at all |
| Day15Path.DistanceIsShortest | src/day15/day15.kt:84-107 | `dijkstra` over unit steps returns the length of a shortest walk from start to end through the unblocked cells (the end itself allowed), and nothing exactly when there is no walk |
| Day15Turn.Lookup | src/day15/day15.kt:154 | `creatures[id]` is absent exactly when no creature has that id, and otherwise is a creature with that id |
| Day15Turn.OrderlyTail | src/day15/day15.kt:18 | dropping the first creature keeps ids and cells distinct |
| Day15Turn.LookupFinds | src/day15/day15.kt:154 | with distinct ids, looking up a creature's id finds that creature |
| Day15Turn.Remove | src/day15/day15.kt:161 | `creatures - attacked` keeps exactly the creatures with another id |
| Day15Turn.RemoveKeepsOrderly | src/day15/day15.kt:161 | removing an id keeps ids and cells distinct |
| Day15Turn.ReplaceKeepsValid | src/day15/day15.kt:155 | replacing a creature by one with its id, on an open cell it alone occupies, keeps the cave valid and changes only that entry |
| Day15Turn.ApplyAllSnoc | src/day15/day15.kt:164-165 | applying a list with one more action applies that action last |
| Day15Turn.ThenApplies | src/day15/day15.kt:116-120 | applying `a + b` is applying `a`, then `b` |
| Day15Turn.RemoveKeepsValid | src/day15/day15.kt:161 | removing a creature keeps the cave valid |
| Day15Turn.AttackKeepsValid | src/day15/day15.kt:158-162 | an attack keeps the cave valid: the target loses the damage and disappears once at zero or below |
| Day15Turn.HarmlessAttack | src/day15/day15.kt:159 | an attack by a creature no longer present deals no damage and changes nothing |
| Day15Turn.MoveKeepsValid | src/day15/day15.kt:153-156 | a move onto an open cell no creature occupies keeps the cave valid |
| Day15Turn.Occupied | src/day15/day15.kt:124 | the occupied cells are exactly the creatures' cells |
| Day15Turn.Enemies | src/day15/day15.kt:125 | the targets are exactly the creatures of the other kind |
| Day15Turn.InRange | src/day15/day15.kt:127-128 | the targets in range of a cell are exactly those on a neighbouring cell |
| Day15Turn.ValidStarts | src/day15/day15.kt:131 | the valid starts are exactly the unblocked neighbours, in reading order |
| Day15Turn.Keep | src/day15/day15.kt:131 | filtering keeps exactly the listed cells in the set, and keeps reading order |
| Day15Turn.GoalsTo | src/day15/day15.kt:133-135 | the goals towards one target are exactly the starts from which it is reachable, each with its distance |
| Day15Turn.Goals | src/day15/day15.kt:132-136 | the goals are exactly the (start, target, distance) triples with the target reachable from the start |
| Day15Turn.MoveTowards | src/day15/day15.kt:130-138 | no step is chosen exactly when no target is reachable from an unblocked neighbour; otherwise the step is an unblocked neighbour from which some target is as close as from any other start, and it is the start of the goal `minWith` picks |
| Day15Turn.NearestGoalIsClosest | src/day15/day15.kt:137 | the goal `minWith` picks is no farther than any reachable target from any valid start |
| Day15Turn.FirstStartWins | src/day15/day15.kt:137 | the first goal that no other goal precedes is the one `minWith` picks |
| Day15Turn.EarlierStartEarlierGoal | src/day15/day15.kt:132-136 | a start earlier in reading order at the same distance to the same target yields an earlier goal |
| Day15Turn.NoEarlierStart | src/day15/day15.kt:132-137 | no start that reaches the chosen goal's end at its distance comes before the goal's start in reading order |
| Day15Turn.EarlierStartAllGoalsWith | src/day15/day15.kt:132-136 | the same ordering fact for the goals over all targets, for any distance function |
| Day15Turn.EarlierStartGoalWith | src/day15/day15.kt:133-135 | the same for the goals towards one target |
| Day15Turn.ReachableIsGoal | src/day15/day15.kt:132-136 | every start from which a target is reachable yields a goal |
| Day15Turn.Destination | src/day15/day15.kt:140 | the creature stays or steps to an unblocked neighbour, and stays whenever a target is in range |
| Day15Turn.TurnChoices | src/day15/day15.kt:122-145 | a turn moves to an unblocked open neighbour or stays, stays when an enemy is adjacent, then attacks the adjacent enemy first in `attackOrder` from where it stands, and attacks whenever an enemy is adjacent |
| Day15Turn.TurnKeepsValid | src/day15/day15.kt:182-186 | one creature's turn applied to a valid cave leaves it valid |
| Day15Turn.AbsentActorChangesNothing | src/day15/day15.kt:149-166 | actions of a creature no longer present change nothing |
| Day15Turn.DeadCreatureChangesNothing | src/day15/day15.kt:182-186 | a creature killed earlier in the round still takes its turn from the scan order, but its turn changes nothing |
| Day15Turn.Turn | src/day15/day15.kt:168-192 | a round changes only the creatures, never the size or the open cells |
| Day15Turn.RoundKeepsValid | src/day15/day15.kt:182-186 | the fold over the scan order keeps the cave valid |
| Day15Turn.TurnKeepsCaveValid | src/day15/day15.kt:168-192 | a round of a valid cave gives a valid cave |
| Day15Turn.Validate | src/day15/day15.kt:194-200 | `validate` returns the cave itself when it does not throw |
| Day15Turn.CountDistinct | src/day15/day15.kt:197 | with distinct cells each creature's cell holds exactly one creature |
| Day15Turn.NotCounted | src/day15/day15.kt:197 | a cell apart from every creature holds none |
| Day15Turn.NoClash | src/day15/day15.kt:195-198 | creatures with distinct cells on open cells pass every check |
| Day15Turn.ValidatePassesValid | src/day15/day15.kt:194-200 | a valid cave, and the round after it, pass `validate` unchanged |
| Day15Turn.ValidateRejectsWall | src/day15/day15.kt:196 | a creature off the open cells makes `validate` throw |
| Day15Turn.ValidateRejectsOverlap | src/day15/day15.kt:197 | two creatures on one cell make `validate` throw |
| Day15Turn.CountsTwo | src/day15/day15.kt:197 | two creatures on one cell count at least two there |
| Day15Turn.CountsOne | src/day15/day15.kt:197 | a creature's cell counts at least one |
| Day15Turn.ClashAt | src/day15/day15.kt:195-198 | one creature off the open cells or not alone is enough for validation to fail |
| Day15Game.HistoryCons | src/day15/day15.kt:202-221 | a history starting with `next` is one step to a changed `next` followed by the history from there |
| Day15Game.SettleIsHistory | src/day15/day15.kt:202-221 | the run succeeds with `ts` exactly when `ts` is its history (each round changes the cave, then one changes nothing) and the fuel covers it |
| Day15Game.SettleFuel | src/day15/day15.kt:202-221 | more fuel does not change a run that ended |
| Day15Game.SettleKeeps | src/day15/day15.kt:202-221 | a property each step keeps, under which no step fails, holds on the whole run, which fails only for want of fuel |
| Day15Game.KeptTrans | src/day15/day15.kt:149-166 | descent of creatures (same id, kind and power) is transitive |
| Day15Game.ReplaceKept | src/day15/day15.kt:155 | replacing a creature by one of the same id, kind and power keeps descent |
| Day15Game.ApplyToKept | src/day15/day15.kt:149-166 | an action only moves, wounds and removes creatures: none is created or changes kind or power |
| Day15Game.ApplyAllKept | src/day15/day15.kt:164-165 | the same for a list of actions |
| Day15Game.RoundKept | src/day15/day15.kt:182-186 | the same for a whole round |
| Day15Game.RoundKeepsDescent | src/day15/day15.kt:202-221 | a round of a valid cave passes `validate`, stays valid and keeps descent |
| Day15Game.TimelineKeepsValid | src/day15/day15.kt:202-221 | along the timeline of a valid cave `validate` never throws, every cave is valid and every creature descends from the first cave's |
| Day15Game.HitPoints | src/day15/day15.kt:225 | the hit points are listed creature by creature |
| Day15Game.RemainingOfValid | src/day15/day15.kt:225 | in a valid cave hit points remain exactly when creatures do |
| Day15Game.Part1Outcome | src/day15/day15.kt:227-234 | the factors fail exactly when the first round changes nothing, and are otherwise the rounds that changed something less one and the hit points left at the end |
| Day15Game.Part1 | src/day15/day15.kt:236-239 | part 1 fails with the factors and is otherwise their `Int` product, wrapped to 32 bits and exact when it fits |
| Day15Game.ElfCount | src/day15/day15.kt:249 | the elves are never more than the creatures |
| Day15Game.ElfIds | src/day15/day15.kt:249 | the ids gathered are exactly the elves' ids |
| Day15Game.ElfIdsCount | src/day15/day15.kt:249 | with distinct ids the elves are counted by their ids |
| Day15Game.KeptElves | src/day15/day15.kt:249 | creatures descended from `cs` with distinct ids hold no more elves than `cs` |
| Day15Game.TimelineLosesElves | src/day15/day15.kt:249-258 | no cave of the timeline has more elves than the first |
| Day15Game.ScanKinds | src/day15/day15.kt:41-49 | the elf power changes neither whether the scan succeeds nor the kinds of the creatures |
| Day15Game.SameKindsSameElves | src/day15/day15.kt:249 | creature lists of the same kinds have the same number of elves |
| Day15Game.ElvesIgnorePower | src/day15/day15.kt:251-252 | parsing fails alike and counts the same elves whatever the elf power, so counting at power 3 serves all powers |
| Day15Game.FirstWin | src/day15/day15.kt:253-258 | the power found is the first from the starting power whose combat ends with at least `numElves` elves, every power before it ends with fewer |
| Day15Game.Part2NoElfDies | src/day15/day15.kt:251-264 | from power 4 up to the power found some elf dies, with the power found none does, and the reported power is that power whenever an elf is left first |
| Day15Game.WinnerKeepsEveryElf | src/day15/day15.kt:254-259 | the winning combat ends with no more elves than it began with, all of them with the winning power |
| Day15Game.ParsedElvesHavePower | src/day15/day15.kt:45 | every elf `parse` makes has the power it was given |
| Day15Game.Part2 | src/day15/day15.kt:266-269 | part 2 fails with the factors and is otherwise rounds times hit points as an `Int` product, wrapped to 32 bits and exact when it fits |
| Day16.Matches | src/day16/day16.kt:96 | a sample fits an operation exactly when running it on `before` gives `after`, and `matches` throws exactly when the run does (an index outside the registers) |
| Day16.AllRunIffInRange | src/day16/day16.kt:56-79 | every operation runs on a sample exactly when its three arguments index its registers |
| Day16.FittingMeaning | src/day16/day16.kt:96-98 | the fitting and unfitting sets hold exactly the operations the sample fits and does not fit |
| Day16.Test | src/day16/day16.kt:98 | `test` succeeds exactly when the arguments are in range |
| Day16.CountMatching | src/day16/day16.kt:98 | a count over a list that succeeds is at most the list's length |
| Day16.CountMatchingFails | src/day16/day16.kt:98 | the count fails exactly when some listed operation throws, and then with the index error |
| Day16.CountMatchingIsFitting | src/day16/day16.kt:98 | over a list without repeats a successful count is the number of listed operations the sample fits |
| Day16.CountStep | src/day16/day16.kt:98 | the count is the rest's count plus one when the first operation fits |
| Day16.FittingStep | src/day16/day16.kt:98 | without repeats, the first operation adds one fitting operation when it fits |
| Day16.TestIsCount | src/day16/day16.kt:94-98 | counting over any repeat-free listing of all sixteen operations gives `test`, failing alike |
| Day16.FailsOutOfRange | src/day16/day16.kt:57 | `addr` throws on a sample whose arguments fall outside the registers |
| Day16.CountAtLeast | src/day16/day16.kt:100-101 | `map(f).count { it >= k }` fails exactly when some element fails, and counts at most every element |
| Day16.CountAtLeastAdds | src/day16/day16.kt:100-101 | the count over a concatenation is the sum of the counts |
| Day16.CountAtLeastOne | src/day16/day16.kt:100-101 | one element counts exactly when its value reaches `k` |
| Day16.Part1 | src/day16/day16.kt:100-101 | part 1 counts at most every sample |
| Day16.Part1Adds | src/day16/day16.kt:100-101 | part 1 over a split of the samples is the sum over the parts |
| Day16.Part1One | src/day16/day16.kt:100-101 | a single sample counts exactly when it fits three or more operations |
| Day16.Observe | src/day16/day16.kt:117-125 | a sample's observation fails on an opcode outside 0..15 (`!!`) or arguments outside the registers, and otherwise is about its own opcode |
| Day16.ObserveMeaning | src/day16/day16.kt:118-124 | an observation puts every operation in `possible` or `notPossible`, exactly as the sample fits it or not |
| Day16.Record | src/day16/day16.kt:119-123 | one sample adds to its own opcode's sets only and leaves every other opcode alone |
| Day16.RecordAll | src/day16/day16.kt:114-125 | the pass gives one entry per opcode |
| Day16.SeenSnoc | src/day16/day16.kt:117-125 | a sample appended adds its own observation to what was seen |
| Day16.RecordAllMeaning | src/day16/day16.kt:114-125 | after the pass an operation is possible for an opcode exactly when some sample of that opcode fitted it, impossible exactly when some did not, and the pass fails exactly when some sample throws |
| Day16.GrowsTrans | src/day16/day16.kt:127-132 | knowledge growing is transitive |
| Day16.Exclude | src/day16/day16.kt:129-130 | ruling out a resolved opcode's candidate only adds it to the other opcodes' impossible sets |
| Day16.SeparatedStays | src/day16/day16.kt:127-132 | once an opcode's candidates are ruled out for every other opcode they stay ruled out |
| Day16.ExcludeAll | src/day16/day16.kt:128-131 | a pass only grows the impossible sets |
| Day16.Resolve | src/day16/day16.kt:109 | `possible - notPossible`: exactly the possible operations not ruled out, no more than were possible |
| Day16.ResolvedFrom | src/day16/day16.kt:128 | the opcodes listed are exactly the resolved ones |
| Day16.Round | src/day16/day16.kt:128-131 | one pass of the loop only grows knowledge |
| Day16.ExcludeAllSeparates | src/day16/day16.kt:128-131 | after the pass each opcode it processed has its candidates ruled out for all others |
| Day16.RoundSeparates | src/day16/day16.kt:127-132 | after a pass an opcode resolved when it began shares no candidate with any other opcode |
| Day16.Eliminate | src/day16/day16.kt:127-135 | the loop ends with every opcode resolved and knowledge only grown |
| Day16.EliminateStuck | src/day16/day16.kt:127-132 | a pass that changes nothing while some opcode is unresolved makes the loop spin for ever |
| Day16.Sole | src/day16/day16.kt:137 | `resolve.first()` of a resolved opcode is its only candidate |
| Day16.MatchOpcodes | src/day16/day16.kt:106-138 | the table has one operation per opcode |
| Day16.MatchOpcodesFitsSamples | src/day16/day16.kt:106-138 | the operation chosen for each opcode fits every sample of that opcode, and some sample of it exists |
| Day16.Execute | src/day16/day16.kt:143-145 | running a program keeps the number of registers |
| Day16.ExecuteConcat | src/day16/day16.kt:143-145 | running two programs in turn is running their concatenation |
| Day16.Part2 | src/day16/day16.kt:140-148 | part 2 succeeds exactly when the table is found and the program runs from four zeros, and is then register 0 of the result |
| Day17.ExtendRange | src/day17/day17.kt:25-26 | extending the empty range gives the other range; otherwise the result spans both, from the smaller start to the larger end |
| Day17.AddVein | src/day17/day17.kt:32-35 | one fold step keeps every cell of the box and takes in every cell of the vein |
| Day17.BoundingBoxCoversVeins | src/day17/day17.kt:32-44 | the bounding box holds every cell of every vein |
| Day17.FillFrom | src/day17/day17.kt:85-117 | a flow keeps what was wet, wets its last cell unless something wet already reached the bottom, never wets clay beyond its start cell, never rises above its start, and never goes below the box's last row when it starts within it |
| Day17.FillAcross | src/day17/day17.kt:98-104 | spreading wets the cell spread from and keeps what was wet, with the same clay, height and bottom bounds for the two branches |
| Day17.Fill | src/day17/day17.kt:82-121 | the wet cells exclude the spring and clay and lie between the spring's row and the box's last row |
| Day17.NoSpreadAfterBottom | src/day17/day17.kt:108-116 | once anything wet lies on the bottom row a flow only falls straight down |
| Day17.StopsAtBottom | src/day17/day17.kt:108-109 | a flow starting on the bottom row wets that cell and stops |
| Day18.Blank | src/day18/day18.kt:23-24 | a new landscape has the given shape and is open ground everywhere |
| Day18.Get | src/day18/day18.kt:49 | reading outside the grid gives open ground |
| Day18.Set | src/day18/day18.kt:50 | writing inside the grid changes that acre only; writing outside changes nothing |
| Day18.SameCells | src/day18/day18.kt:23-24 | two grids of one shape with the same acres are the same grid |
| Day18.AcreOf | src/day18/day18.kt:7-11 | a character is read as the acre whose symbol it is, and as none when no acre has that symbol |
| Day18.AcreOfSymbol | src/day18/day18.kt:7-11 | reading an acre's symbol gives the acre back |
| Day18.Parse | src/day18/day18.kt:55-70 | no rows make `max()!!` throw; otherwise parsing fails exactly on a character that is not an acre symbol (dot, bar or hash); the grid is as wide as the longest row and as high as the row count, holds each character's acre, and is open ground past the end of a short row |
| Day18.Render | src/day18/day18.kt:45-46 | printing gives one line per row and one symbol per acre, each reading back as that acre |
| Day18.ParseRendered | src/day18/day18.kt:45-70 | parsing a printed grid of at least one row gives the grid back |
| Day18.NeighboursAreAdjacent | src/day18/day18.kt:15-21 | `neighbours` lists exactly the eight adjacent positions, each once, never the position itself |
| Day18.CountAt | src/day18/day18.kt:32-35 | a count over positions is at most their number |
| Day18.CountsPartition | src/day18/day18.kt:32-35 | the counts of the three acres add up to the number of positions |
| Day18.CountNone | src/day18/day18.kt:32-35 | an acre absent from the positions counts zero |
| Day18.NeighbourCount | src/day18/day18.kt:32-33 | at most eight neighbours hold any acre |
| Day18.PositionsListCells | src/day18/day18.kt:26-28 | `positions` lists every cell of the grid exactly once, `width * height` in all |
| Day18.TotalsCoverGrid | src/day18/day18.kt:35 | the three totals add up to the grid's area |
| Day18.ResourceValue | src/day18/day18.kt:37 | trees times lumberyards, exact whenever the product fits in an `Int` |
| Day18.Part1 | src/day18/day18.kt:37 | the resource value after ten minutes, wrapped to 32 bits |
| Day18.AllSameMeaning | src/day18/day18.kt:40 | `positions.all` holds exactly when every listed position holds the same acre in both grids |
| Day18.EqualsAsWrittenMeaning | src/day18/day18.kt:39-40 | `equals` as written holds exactly when every cell of the first grid holds the same acre in the second |
| Day18.EqualsAsWrittenIgnoresWidth | src/day18/day18.kt:39-40 | one open acre equals two open acres under `equals` as written |
| Day18.Equals | src/day18/day18.kt:39-40 | corrected `equals`: same width and height and the same acre at every cell |
| Day18.Hash | src/day18/day18.kt:42-43 | `hashCode` is the 32-bit fold `(h * 31) xor ordinal` from 31 over the acres in row order |
| Day18.HashOfCells | src/day18/day18.kt:42-43 | folding over positions that read given acres is folding over those acres |
| Day18.PositionsReadRows | src/day18/day18.kt:26-28 | `positions` reads the grid row by row, one acre per position |
| Day18.HashSeesWidth | src/day18/day18.kt:42-43 | yet their `hashCode`s are 961 and 29791 |
| Day18.EqualsIsIdentity | src/day18/day18.kt:39-43 | equality that also compares width and height is the grids' identity, symmetric and agreeing with `hashCode` |
| Day18.Rule | src/day18/day18.kt:78-96 | an acre becomes trees exactly when it is open with three or more trees around or trees with fewer than three lumberyards around, and a lumberyard exactly when it is trees with three or more lumberyards around or a lumberyard with a lumberyard and trees around |
| Day18.Next | src/day18/day18.kt:74-99 | the next grid has the same shape and applies the rule to every acre of the old grid |
| Day18.Tick | src/day18/day18.kt:74-99 | writing the rule position by position into a blank grid gives the next grid |
| Day18.BlankStaysBlank | src/day18/day18.kt:79-83 | bare ground stays bare |
| Day18.Periodic | src/day18/day18.kt:101-107 | once a grid recurs after `p` minutes it recurs every `p` minutes |
| Day18.Landing | src/day18/day18.kt:138-145 | the grid at any minute past the loop's start is the one `(n - start) % p` minutes after the start |
| Day18.FindFrom | src/day18/day18.kt:124-136 | the scan returns the first index equal to an earlier one and that earlier index, or finds all distinct |
| Day18.FindLoop | src/day18/day18.kt:124-136 | `findLoop` gives `start < end` with equal grids, and no repeat before `end` |
| Day18.Timeline | src/day18/day18.kt:101-107 | the timeline's `i`-th grid is the one after `i` minutes |
| Day18.LastLoopAsWritten | src/day18/day18.kt:141-142 | the offset as written divides by zero exactly when the loop is longer than the minutes left; otherwise it is a remainder modulo the number of loops, not the loop length |
| Day18.LastLoop | src/day18/day18.kt:141-142 | the intended offset lies within one loop and leaves a whole number of loops after the start |
| Day18.LastLoopAgrees | src/day18/day18.kt:141-142 | the offset as written equals the intended one whenever there are more loops than the remainder |
| Day18.LastLoopDividesByZero | src/day18/day18.kt:141-142 | a loop longer than the minutes left makes the offset divide by zero |
| Day18.LastLoopMisses | src/day18/day18.kt:142 | for a loop of 600 000 000 minutes from the start, the offset as written is 0 where the intended one is 400 000 000 |
| Day18.Landed | src/day18/day18.kt:143-144 | dropping `start` then `offset` grids fails exactly for a negative offset and otherwise gives the grid after `start + offset` minutes |
| Day18.LandValue | src/day18/day18.kt:143-145 | the resource value of the landed grid: it fails exactly for a negative offset and is otherwise the value after `start + offset` minutes |
| Day18.LoopLands | src/day18/day18.kt:138-146 | landing on the last loop of a repeat found before the last minute gives the grid after 1 000 000 000 minutes |
| Day18.Part2 | src/day18/day18.kt:138-146 | with the intended offset part 2 succeeds exactly when a loop is found |
| Day18.Part2Lands | src/day18/day18.kt:138-146 | part 2 with the intended offset is the resource value after 1 000 000 000 minutes |
| Day18.Part2AsWritten | src/day18/day18.kt:138-146 | part 2 as written is the resource value of some minute, and agrees with the corrected part 2 whenever there are more loops than the remainder |
| Day19.Start | src/day19/day19.kt:73-74 | execution starts from six registers, all zero but register 0, which holds `r0`, with the program's pointer binding |
| Day19.Ip | src/day19/day19.kt:18 | the instruction pointer is the bound register, and reading it throws exactly when the binding names no register |
| Day19.Step | src/day19/day19.kt:20-22 | `step` adds one (wrapping) to the bound register and to nothing else, and throws exactly when the binding names no register |
| Day19.Cycle | src/day19/day19.kt:76-81 | one pass stops exactly when the pointer is outside the program; otherwise it runs the instruction at the instruction pointer, changes only its target register and the pointer, and leaves the pointer one past what the instruction left in the bound register |
| Day19.CycleAdvances | src/day19/day19.kt:76-81 | an instruction that does not write the bound register moves the pointer to the next instruction |
| Day19.Execute | src/day19/day19.kt:72-84 | a finished run has halted with the pointer outside the program, keeps the binding and the registers, and fails only with an index error or for want of fuel |
| Day19.ExecuteMoreFuel | src/day21/day21.kt:72-84 | more fuel never changes a run that did not run out |
| Day19.ExecuteHalted | src/day19/day19.kt:76 | a machine whose pointer is already outside the program returns as it is |
| Day19.ExecuteUnbound | src/day19/day19.kt:18 | a pointer bound to a register that does not exist throws at the first test of the loop |
| Day19.Part1 | src/day19/day19.kt:88 | part 1 is register 0 once the program halts from register 0 = 0 |
| Day19.DropLast | src/day19/day19.kt:91 | `dropLast(1)` keeps the binding and removes the last instruction, if any, keeping the rest in order |
| Day19.WrappedIsExact | src/day19/day19.kt:94 | summing with a wrap at every addition is the exact sum wrapped once |
| Day19.DivisorSum | src/day19/day19.kt:94 | the filtered sum is the sum of the divisors of `n` (wrapped), and 0 when `n <= 0` and the range is empty |
| Day19.Part2 | src/day19/day19.kt:90-96 | part 2 runs the program without its last instruction from register 0 = 1 and is the divisor sum of register 3 at the halt |
| Day19.SumCountsOne | src/day19/day19.kt:94 | 1 divides every number, so the sum is at least 1 |
| Day19.SumCountsOneAndSelf | src/day19/day19.kt:94 | with `n` itself the divisor sum is at least `n + 1` for `n >= 2` |
| Day19.NoDivisorAboveHalf | src/day19/day19.kt:94 | no divisor lies strictly between `n / 2` and `n` |
| Day19.HalfAndSelf | src/day19/day19.kt:94 | the divisor sum is `n` plus the divisors up to `n / 2` |
| Day19.PrimeSumBelow | src/day19/day19.kt:94 | a prime has only 1 as a divisor below itself |
| Day19.PrimeSum | src/day19/day19.kt:94 | a prime's divisors sum to `n + 1` |
| Day20.Node | src/day20/day20.kt:18-43 | a node read from `p` ends at a `)` or `$` at or after `p`; it fails only on running out of characters (`EOF`) or on an unexpected character found after `p` |
| Day20.ParseTree | src/day20/day20.kt:15-47 | an empty regex throws on `chars[0]`, and one not starting with `^` throws `Missing ^` |
| Day20.NoCloserNoTree | src/day20/day20.kt:22-42 | a regex with no `)` or `$` after the `^` has no tree |
| Day20.AtSplit | src/day20/day20.kt:22-41 | text written at `p` as `x + y` has `x` at `p` and `y` right after it |
| Day20.AtGroup | src/day20/day20.kt:25-29 | a written group is `(`, its contents, and `)` |
| Day20.StepsParse | src/day20/day20.kt:22-41 | reading printed steps appends them to the current alternative |
| Day20.HeadStepParse | src/day20/day20.kt:24-29 | reading the first printed step (a direction or a group) appends it |
| Day20.NodeParse | src/day20/day20.kt:18-43 | reading a printed node up to its closing character gives the node back |
| Day20.ChoicesParse | src/day20/day20.kt:30-36 | reading printed alternatives adds them to those already read, giving a sequence for one and a choice for several |
| Day20.FirstChoiceParse | src/day20/day20.kt:30-33 | reading the first of several alternatives and the bar after it adds it to the finished ones |
| Day20.ParsePrinted | src/day20/day20.kt:15-47 | parsing the printed regex of any tree of the parser's shape gives that tree back |
| Day20.ParsedIsShaped | src/day20/day20.kt:18-43 | what the parser builds is always a sequence of steps or two or more alternatives |
| Day20.StepsSnoc | src/day20/day20.kt:24-27 | appending a move or a node keeps steps well shaped |
| Day20.ChoicesSnoc | src/day20/day20.kt:31 | appending a finished alternative keeps the alternatives well shaped |
| Day20.ParseTreeShaped | src/day20/day20.kt:15-47 | every tree `parseTree` returns has the parser's shape |
| Day20.NodeIgnoresLetters | src/day20/day20.kt:18-43 | the parser treats every direction letter alike, so two regexes of the same shape parse the same |
| Day20.ParseShaped | src/day20/day20.kt:15-47 | a regex of the same shape as a printed tree parses to that tree |
| Day20.AnyLoopMeaning | src/day20/day20.kt:54 | `choices.any(hasLoop)` holds exactly when some choice has a loop |
| Day20.Add | src/day20/day20.kt:59 | a sum fails when either part fails and otherwise adds them |
| Day20.MaxPath | src/day20/day20.kt:60 | `max()!!` of no choices throws; otherwise the result is one choice's path and no choice's path is longer |
| Day20.LongestPath | src/day20/day20.kt:57-61 | a tree with a loop has a longest path of 0; a parsed tree always has one; no path is longer than the tree's moves |
| Day20.SumPaths | src/day20/day20.kt:59 | the sum over steps exists exactly when every step has a path, always for well-shaped steps, and is at most their moves |
| Day20.Part1 | src/day20/day20.kt:63 | part 1 always succeeds on a parsed tree and is at most its number of moves |
| Day20.SumPathsConcat | src/day20/day20.kt:59 | following one sequence with another adds their paths |
| Day20.NodesAtDistance | src/day20/day20.kt:74-82 | the count of rooms at a distance is at most the tree's size |
| Day20.ChoicesAt | src/day20/day20.kt:76 | the same bound for a list of choices |
| Day20.StepsAt | src/day20/day20.kt:77-81 | the same bound for a list of steps |
| Day20.FartherCountsLess | src/day20/day20.kt:74-82 | asking for a greater distance never counts more rooms |
| Day20.ChoicesFarther | src/day20/day20.kt:76 | the same for a list of choices |
| Day20.StepsFarther | src/day20/day20.kt:77-81 | the same for a list of steps |
| Day20.Part2 | src/day20/day20.kt:84 | part 2 counts no more rooms than any smaller distance does, and at most the tree's size |
| Day20.ExampleStraight | src/day20/day20.kt:94 | `^WNE$` is three moves with a longest path of 3 |
| Day20.ExampleGroup | src/day20/day20.kt:101 | the regex `^WNE` with a group of the alternatives `N` and `S`, then `$`, parses to three moves and a choice of two |
| Day20.ExampleDistance | src/day20/day20.kt:100-101 | at distance 2, `^WNES$` counts 1 and the same with a final group of `N` or `S` counts 2 |
| Day20.ExampleBranches | src/day20/day20.kt:95 | the tree of the second part 1 example has a longest path of 10 |
| Day20.MovesPrint | src/day20/day20.kt:24 | n moves print as n direction letters and are well shaped |
| Day20.StepsPrintSnoc | src/day20/day20.kt:24-29 | appending a step appends its print |
| Day20.MovesThenGroup | src/day20/day20.kt:24-29 | moves followed by a group print as the letters, then the group in parentheses |
| Day20.RightBranchPrinted | src/day20/day20.kt:95 | the inner branch of the example prints as `NNN(NN|N)` |
| Day20.OuterGroupPrinted | src/day20/day20.kt:95 | its outer group prints as `NNNN|NNN(NN|N)` |
| Day20.BranchesPrinted | src/day20/day20.kt:95 | the whole example tree prints as `NNNNN(NNNN|NNN(NN|N))` |
| Day20.BranchesShaped | src/day20/day20.kt:95 | the example tree has the parser's shape |
| Day20.ExampleBranchesParse | src/day20/day20.kt:95 | the second part 1 example regex parses to that tree |
| Day20.ExampleBranchesDistance | src/day20/day20.kt:102 | that tree counts 3 at distance 3 |
| Day22.TypeOf | src/day22/day22.kt:73-80 | a region's type is its erosion level's remainder by 3, read as rocky, wet or narrow, and throws exactly when that remainder is negative, which never happens for a level of at least zero |
| Day22.GeologicIndex | src/day22/day22.kt:89-94 | the geologic index of the reference definition is non-negative for a non-negative depth |
| Day22.Erosion | src/day22/day22.kt:95 | the erosion level is a truncated remainder by 20183: strictly between -20183 and 20183, and non-negative for a non-negative depth |
| Day22.BuildCave | src/day22/day22.kt:82-99 | building the grid throws `NegativeArraySizeException` for a limit below -1, gives an empty grid for a row limit of -1, throws `IllegalStateException` exactly when some region has no type, and otherwise has `limit.y + 1` rows whose squares hold the geologic index and erosion level of the reference definition |
| Day22.NoUntypedRow | src/day22/day22.kt:86-98 | a typed row added below typed rows leaves no untyped region |
| Day22.BuildsWithDepth | src/day22/day22.kt:82-99 | with a depth of at least zero building never throws |
| Day22.RowRiskBound | src/day22/day22.kt:101-102 | a row's risk is at most twice its length |
| Day22.GridRiskBound | src/day22/day22.kt:101-102 | a grid's risk is at most twice its area |
| Day22.RowRiskIsErosion | src/day22/day22.kt:101-102 | a built row's risk is the sum of the types' risks from the reference erosion levels |
| Day22.GridRiskIsErosion | src/day22/day22.kt:101-102 | a built grid's risk is the risk of the cave's reference erosion levels |
| Day22.RiskLevel | src/day22/day22.kt:101-102 | the `Int` risk is the exact risk modulo 2^32, and exactly it when it fits |
| Day22.RiskLevelBound | src/day22/day22.kt:101-102 | the `Int` sum is the exact risk, between zero and twice the area, when twice the area fits in an `Int` |
| Day22.Part1 | src/day22/day22.kt:108-111 | part 1 succeeds for a non-negative depth and target, throws `NegativeArraySizeException` for a target below -1, is 0 for a row target of -1, and otherwise is the wrapped risk of the reference erosion levels, exact and at most twice the area whenever that bound fits in an `Int` |
| Day22.AvailableTools | src/day22/day22.kt:121-125 | each region allows exactly two tools: neither except on rocky ground, the torch except in wet regions, the climbing gear except in narrow ones |
| Day22.SharedTool | src/day22/day22.kt:195 | two different region types share exactly one tool, so `commonTools` is never empty and `first()` has one choice |
| Day22.Move | src/day22/day22.kt:164 | a move links back to the state it came from, keeps the tool, and takes one minute when the time does not overflow |
| Day22.ChangeTool | src/day22/day22.kt:165 | a tool change stays in place, links back, and takes seven minutes when the time does not overflow |
| Day22.ReversePath | src/day22/day22.kt:131-137 | the reverse path starts with the state itself |
| Day22.SwitchAndMove | src/day22/day22.kt:164-165 | a change then a move costs eight minutes, ends with the new tool, and adds two states to the path |
| Day22.SentinelMoveWraps | src/day22/day22.kt:170 | moving from the no-path sentinel, whose time is the largest `Int`, wraps to the smallest |
| Day23.Distance | src/day23/day23.kt:16-17 | the three-dimensional Manhattan distance is never negative and zero exactly for equal positions |
| Day23.DistanceIsMetric | src/day23/day23.kt:16-17 | the three-dimensional Manhattan distance is never negative, symmetric, and zero exactly from a point to itself |
| Day23.FirstStrongest | src/day23/day23.kt:40 | among the first bots, the index found has the largest radius and every bot before it a smaller one |
| Day23.Strongest | src/day23/day23.kt:40 | `maxBy { radius }!!` throws exactly on no bots, and otherwise is the first bot with the largest radius |
| Day23.CountInRange | src/day23/day23.kt:41 | the count is at most the number of bots |
| Day23.CountIsInRange | src/day23/day23.kt:41 | the count is the number of bots within the radius of the point, bounds included |
| Day23.Part1 | src/day23/day23.kt:39-42 | part 1 throws exactly on no bots, and otherwise is the number of bots within the strongest bot's radius of it |
| Day23.Part1CountsStrongest | src/day23/day23.kt:39-42 | with radii of at least zero the strongest bot counts itself, so part 1 is at least 1 |
| Day25.Distance | src/day25/day25.kt:32-33 | the four-dimensional Manhattan distance is never negative and zero exactly for equal points |
| Day25.DistanceIsMetric | src/day25/day25.kt:32-33 | the four-dimensional Manhattan distance is never negative, symmetric, and zero exactly from a point to itself |
| Day25.ContainsOwnPoints | src/day25/day25.kt:39-40 | a constellation would take in each of its own points |
| Day25.AddPoint | src/day25/day25.kt:42-43 | adding a point gives exactly the old points and the new one |
| Day25.Join | src/day25/day25.kt:45-46 | joining gives exactly the points of both |
| Day25.MergeListIsUnion | src/day25/day25.kt:48-49 | the fold of `merge` holds the point and every point of the listed constellations, whatever their order |
| Day25.Add | src/day25/day25.kt:52-55 | one fold step keeps the constellations the point does not join, replaces those it joins by their merge with the point, and holds nothing else |
| Day25.AddCount | src/day25/day25.kt:52-55 | the step removes the joined constellations and adds exactly one |
| Day25.AddUnion | src/day25/day25.kt:52-55 | the step adds exactly the point to the union of all constellations |
| Day25.AddSeparated | src/day25/day25.kt:52-55 | the step keeps different constellations more than 3 apart everywhere |
| Day25.SeenSnoc | src/day25/day25.kt:51-57 | the points of a list are those of its front and its last point |
| Day25.Constellations | src/day25/day25.kt:51-57 | the constellations cover exactly the input's points, no two come within distance 3, and there are no more of them than points |
| Day25.Part1 | src/day25/day25.kt:51-57 | part 1 is at most the number of points, and at least 1 for a non-empty input |
| Day25.Single | src/day25/day25.kt:36 | one point makes one constellation of itself |
| Day25.NearPointsJoin | src/day25/day25.kt:69-70 | two points 3 apart form one constellation |
| Day25.FarPointsStayApart | src/day25/day25.kt:69-75 | two points 9 apart form two |

## Left out

- Input and output: every `main`, file reading, printing and timing, and their expected-output checks. The debug renderers are also out: day 15 `render` and `vis`, day 17 `vis`, day 22 `vis` with its colours, day 11 C `print_square`. They have no behaviour beyond formatting.
- The library-based parsers (days 3, 4, 6, 7, 10, 12, 16, 17, 19, 21, 22, 23, 25): they wrap a parser library that is not part of this model, so the model starts from the parsed values.
- `src/day24/day24.kt`: only a grammar and plain data classes, with nothing to prove.
- `src/day5/day5b.kt`: an abandoned attempt, superseded by `src/day5/day5.kt`.
- Day 1: its logic is inline in `main` next to the file reading, and part 2 searches an infinite repeated sequence.
- Day 21's hand translation `execute(r0)` (`src/day21/day21.kt:88-103`): for non-zero `r0` its inner loop never changes `r1` and does not end. The generic machine is modelled.
- Day 22 part 2: the Dijkstra search over equipment states is exploratory and its `part2` returns 0. Its moves (`Day22.Move`, `Day22.ChangeTool`) and the tool table are modelled.
- Day 23 part 2: a brute-force enumeration with no clear contract.
- Day 11 Kotlin: the mutable `cache`, the printing `squares` loop, and `part1` and `part2` (printing drivers). `Grid.get` of a square is modelled through the cells it decomposes into (`Day11.Flatten`), not as a cached recursive sum.
- Day 12 `Region.toString` is modelled for the five-cell regions the rules use. `State.toString` and the 64-bit sum overflow are left out.
- Day 13: the track `toString` is left out.
- Day 15: the path list of the search is left out. Only its length (the distance) is used by the turn logic. The Dijkstra queue is modelled as breadth-first rings of equal distance, which yields the same distances on a unit-cost grid.
- Day 15: the round count `sim.count() - 1` is modelled as written. `Day15Game.Part1Outcome` does not claim that it is the number of full rounds.
- Day 17: `fill` returns the filled cells. The list of paths it also builds is reduced to its last cell.
- Day 18 `parse` takes its lines already trimmed and split.
- Long test vectors (day 9 games, day 14 scoreboards beyond a few recipes, day 15 combats, day 25 samples, and the day 20 `longestPath` regexes with answers 18, 23 and 31): the verifier does not evaluate runs of that length. Small examples are proved instead (`Day20.Example*`, `Day20.ExampleBranchesParse`, `Day25.NearPointsJoin`, `Day25.FarPointsStayApart`, `Day7.SortedInitialsExample`). For the day 20 regexes, `Day20.ParseShaped` reduces each parse to printing a tree of the same shape.
- Fuel: every fuelled operation proves its properties for every fuel. Running out of fuel is an `Err`, where the source would loop forever or recurse until the stack overflows.
- Day 16 `matchOpcodes`: the throw after the loop is unreachable (`Day16.EliminateStuck` shows that a pass that changes nothing repeats forever). The model does not claim that the final table is injective, because the source does not ensure it.
- `Device` bitwise opcodes (`banr`, `bani`, `borr`, `bori`) are modelled on the 32-bit two's-complement bits. Only register-write and wrap properties are proved about them, not algebraic laws of the bit operations.
- Day 4 `LocalDateTime` is modelled as an ordered stamp plus the minute field it needs.
- Day 7 names are modelled as single characters, since the puzzle uses single letters. Lexicographic order of longer strings is not modelled.
- Day 18, day 23 and day 25 coordinates are unbounded integers. `Math.abs` of the most negative `Int` is not modelled.
- Day 20 path lengths are unbounded integers. Kotlin `Int` overflow of the sums is not modelled.
- Day4.Part1: the product of guard id and minute is not wrapped to 32 bits, since the ids and minutes are small. For tied minutes it may answer with a different minute than the source (see `Day4.BestMinute`).
- Day4.BestMinute: breaks ties differently from the source. Among tied minutes it picks the smallest; Kotlin's `maxBy` over the insertion-ordered map picks the minute first slept through. A guard who napped 30..40 and then 10..20 gets 10 here and 30 in the source. The contract states only that the minute has the largest count.
- Day4.MostAsleepMinute: inherits that tie-break from `Day4.BestMinute`, so for tied minutes it may return a different minute than the source.
- Day4.BestEntry: among tied guards it keeps the first in list order, as `maxBy` does. Within a guard it uses the smallest tied minute, where the source uses the first inserted one. The contract states only that the entry has the largest count.
- Day4.Part2: the product of guard id and minute is not wrapped to 32 bits, and for tied minutes it may answer with a different minute than the source (see `Day4.BestEntry`).
- Day5.Lower: lower-cases only the ASCII letters, which is all the puzzle's polymers contain.
- Day7.TopologicalOrderAsWritten: its ordering and completeness claims are stated only for distinct instructions. A repeated instruction makes the source push its target twice and emit it twice (`Day7.RepeatedInstructionRepeatsStep`: "A before B" twice gives ABB).
- Day7.TopologicalOrder: the same restriction to distinct instructions.
- Day7.Part1: the same restriction, since it is the as-written order.
- Day8.Part1: the metadata sum is not wrapped to 32 bits.
- Day9.Game: scores are unbounded integers where the source uses `Long`. The marble values added are 32-bit `Int` values, which the puzzle's inputs do not overflow.
- Day10.Integrate: `velocity * t` is not wrapped to 32 bits.
- Day12.Part1: the pot-number sum is not wrapped to 32 bits.
- Day14.Part1: every negative `make` gives `IndexOutOfBoundsException`. For `make` below -20, the source's buffer allocation fails first, with `NegativeArraySizeException`.
- Day15Game.Part1Outcome: the hit-point sum is not wrapped to 32 bits.
- Day11C.Cell: signed `int` overflow is undefined behaviour in C. The model takes the two's-complement wrap, as for the Kotlin `Int`.
- Day15.Parse: a cell index beyond a shorter row gives `Err` rather than modelling which exception the source raises.
- Day15.Parse: takes its input already split into lines and trimmed; the source's `input.trim().lines().map { it.trim() }` is not modelled, since Kotlin's Unicode whitespace test is outside this model. So `Err` on no rows is a case the source never meets.
- Day15Game.Part2NoElfDies: claims that the power reported is the power found only when the first surviving creature is an elf. The source reports the first creature's power whatever its kind.

## Findings

| source | as written | input that shows it | evidently intended | confidence | as-written member | corrected member |
|---|---|---|---|---|---|---|
| src/day7/day7.kt:53 | the initial stack is the initials in first-appearance order, not sorted | instructions `C` before `A` and `B` before `A`: the order is `CBA`, although `B` is available and smaller than `C` | the initial stack is sorted like every later stack, so each step is the smallest available one | not executed | Day7.InitialStackUnsorted | Day7.TopologicalOrder |
| src/day11/day11.kt:42-45 | for an odd size, the extra row and the extra column both include the bottom-right corner cell | any square of odd size 3 or more, e.g. size 3 at (1, 1): cell (3, 3) is yielded twice | each cell of the square is counted once | not executed | Day11.OddSquareCountsCornerTwice | Day11.FlattenCoversBlockOnce |
| src/day18/day18.kt:39-43 | `equals` compares only the receiver's positions, so grids of different sizes can be equal while their hashes differ | a 1 by 1 open grid and a 2 by 1 open grid: equal, with hashes 961 and 29791 | equality means the same dimensions and the same cells, consistent with `hashCode` | not executed | Day18.EqualsAsWrittenIgnoresWidth | Day18.EqualsIsIdentity |
| src/day18/day18.kt:141-142 | `lastLoop` is the remainder modulo the number of loops, not modulo the loop length | loop start 0 and end 600000000: the offset is 0 where 400000000 is meant; a loop end of 1000000001 divides by zero | the offset into the loop is the remainder of the minutes left after its start, modulo the loop length | not executed | Day18.LastLoopMisses | Day18.Part2Lands |
