# Advent of Code 2018 solutions, Days 1 to 16, in Dafny

A model of a set of daily puzzle solutions, each a one-shot batch computation
that parses a small textual input and computes one or two answers, and of
the shared sequence helpers they use (`Common/EnumerableAocExt.cs`). The
centre of the model is the Day 15 combat simulation, which the model covers
in full:

- the grid of walls, open floor, goblins and elves, and its parser;
- the closeness propagator, a fixed-point breadth-first sweep that marks each
  open cell with the distance to the nearest unit of each faction, that
  unit's id and the cell next to it to aim for;
- the turn resolver (move along the closeness map, then attack the weakest
  adjacent enemy in reading order);
- the round scheduler, which plays units in reading order and stops as soon
  as one faction has no units left;
- the outcome search over the elves' attack power.

The other days are modelled one module per source file:

- frequency drift (Day 1);
- box ids (Day 2);
- overlapping fabric claims (Day 3);
- guard sleep logs (Day 4);
- polymer reactions (Day 5);
- Manhattan areas (Day 6);
- step scheduling with workers (Day 7);
- licence trees (Day 8);
- the marble game (Day 9);
- converging points of light (Day 10);
- fuel-cell power grids with summed-area tables (Day 11);
- the pot automaton (Day 12);
- mine carts (Day 13);
- the recipe scoreboard (Day 14);
- the opcode samples and programs of Day 16.

Code that updates state step by step is imperative Dafny and is proved
against specification functions. This covers the Day 15 grids held in
`array2`, the Day 14 scoreboard arrays, and the classes that receive parser
callbacks. Pure code is modelled as datatypes, functions and lemmas.

Conventions:

- C# exceptions are `Failure` values of a `Result` type.
- 32-bit and 8-bit integer arithmetic is wrapped explicitly where the code
  depends on it.
- Dictionary enumeration order, which .NET leaves unspecified, is an
  arbitrary order. Results that depend on it are proved not to.
- Console and file I/O are left out. Each solution takes its input as a
  parameter.

Source paths below are relative to the repository root.

## Model

| member | source | states |
|---|---|---|
| EnumerableAocExt.IsNew | Solutions/Common/EnumerableAocExt.cs:60-66 | the seen set grows by exactly the value, and the value is flagged new exactly when the set did not already hold it |
| EnumerableAocExt.ScanIsNewMeans | Solutions/Common/EnumerableAocExt.cs:35-37 | the k-th accumulator of the `Scan` has seen the seed's values and the first k + 1 inputs, and flags input k new exactly when neither the seed nor an earlier input holds it |
| EnumerableAocExt.FindFirstRepeatedValueMeans | Solutions/Common/EnumerableAocExt.cs:35-37 | `FindFirstRepeatedValue` returns the value at the earliest position that repeats an earlier value, and fails (the throwing `First`) exactly when all values are distinct |
| EnumerableAocExt.FindFirstRepeatedValuePrefix | Solutions/Common/EnumerableAocExt.cs:35-37 | a repeat found in a prefix stays the answer whatever values follow, so a finite prefix of an endless sequence gives the endless sequence's answer |
| EnumerableAocExt.UpdateSeenCount | Solutions/Common/EnumerableAocExt.cs:86-95 | the counted value gains one occurrence (starting at 1 when absent) and every other count is unchanged |
| EnumerableAocExt.AggregateCountsMeans | Solutions/Common/EnumerableAocExt.cs:50-51 | folding `UpdateSeenCount` over the values adds each value's number of occurrences to the starting counts |
| EnumerableAocExt.FindRepeatedValueCountsMeans | Solutions/Common/EnumerableAocExt.cs:50-51 | the keys of `FindRepeatedValueCounts` are exactly the distinct values, and each maps to its number of occurrences |
| EnumerableAocExt.CountsSumToLength | Solutions/Common/EnumerableAocExt.cs:50-51 | the counts, summed once per distinct value, add up to the length of the input |
| Day01Program.UpdateFrequency | Solutions/Day01/Program.cs:69 | one adjustment moves the frequency by exactly the change |
| Day01Program.FoldIsSum | Solutions/Day01/Program.cs:98-99 | folding `UpdateFrequency` from a start value adds the sum of the changes to it |
| Day01Program.ApplyFrequencyAdjustmentsIsSum | Solutions/Day01/Program.cs:98-99 | the unseeded aggregate gives the sum of the changes, and throws exactly for an empty list |
| Day01Program.Examples | Solutions/Day01/Program.cs:19-28 | the four single adjustments and the three sequences of the worked examples give 1, -1, 2, 3 and 3, 0, -6 |
| Day01Program.Repeated | Solutions/Day01/Program.cs:140-142 | the n-th value of `changes.Repeat()` is change number n modulo the list length |
| Day01Program.RunningTotalsAre | Solutions/Day01/Program.cs:140-142 | the k-th value of the `Scan` is the start plus the sum of the first k + 1 changes |
| Day01Program.FrequencyIsPrefixSum | Solutions/Day01/Program.cs:140-142 | frequency k of the endless sequence (after the leading 0) is the sum of the first k repeated changes |
| Day01Program.FrequenciesExtend | Solutions/Day01/Program.cs:140-142 | looking further along the endless sequence only appends frequencies |
| Day01Program.FindFirstRepeatedFrequencyStable | Solutions/Day01/Program.cs:126-127 | a repeat found within a search limit stays the answer for every larger limit |
| Day01Program.FindFirstRepeatedFrequencyMeans | Solutions/Day01/Program.cs:126-127 | a result is the frequency at the first position that repeats an earlier one; no result means no position within the limit repeats |
| Day01Program.FirstRepeatAt | Solutions/Day01/Program.cs:170-172 | a repeat at position k after k pairwise different values is what `FindFirstRepeatedValue` returns |
| Day01Program.RepeatExamples | Solutions/Day01/Program.cs:37-38 | +1, -1 first reaches 0 twice and +3, +3, +4, -2, -4 first reaches 10 twice |
| Day01Program.ExampleTen | Solutions/Day01/Program.cs:38 | +3, +3, +4, -2, -4 first reaches 10 twice, within seven changes |
| Day02Program.GetRepetitionCountsMeans | Solutions/Day02/Program.cs:153-174 | 2 is reported exactly when some value occurs exactly twice, 3 exactly when some value occurs exactly three times, each at most once and in that order, and nothing else |
| Day02Program.ContributionsCount | Solutions/Day02/Program.cs:123 | the flattened contributions hold only 2s and 3s, as many 2s as ids with a value occurring twice and as many 3s as ids with a value occurring three times |
| Day02Program.ChecksumIsProduct | Solutions/Day02/Program.cs:121-129 | the checksum is the number of ids with an exact pair times the number with an exact triple, an empty group contributing no factor |
| Day02Program.RepetitionsAbcdef | Solutions/Day02/Program.cs:14 | "abcdef" reports nothing |
| Day02Program.RepetitionsBababc | Solutions/Day02/Program.cs:15 | "bababc" reports 2 and 3 |
| Day02Program.RepetitionsAbbcde | Solutions/Day02/Program.cs:16 | "abbcde" reports 2 only |
| Day02Program.RepetitionsAbcccd | Solutions/Day02/Program.cs:17 | "abcccd" reports 3 only |
| Day02Program.RepetitionsAabcdd | Solutions/Day02/Program.cs:18 | "aabcdd" reports 2 only |
| Day02Program.RepetitionsAbcdee | Solutions/Day02/Program.cs:19 | "abcdee" reports 2 only |
| Day02Program.RepetitionsAbabab | Solutions/Day02/Program.cs:20 | "ababab" reports 3 only |
| Day02Program.ChecksumExample | Solutions/Day02/Program.cs:22-33 | the seven example ids have checksum 12 |
| Day02Program.PartialIds | Solutions/Day02/Program.cs:90-92 | the partial ids are exactly the ids with one deletable position removed, without duplicates; as written an empty id makes `Range` throw |
| Day02Program.AccumulateMeans | Solutions/Day02/Program.cs:85-108 | one id adds all its partial ids to the seen set; it is a repeat exactly when one of them had been seen, and then the last such partial id is reported instead of the id |
| Day02Program.AccumulatePartialIds | Solutions/Day02/Program.cs:85-108 | the loop computes the accumulator that `AccumulateMeans` describes |
| Day02Program.AddPartialIds | Solutions/Day02/Program.cs:96-105 | the foreach over distinct partial ids adds each to the seen set and marks a repeat, reporting the last one already seen |
| Day02Program.FindRepeatSound | Solutions/Day02/Program.cs:70-72 | a reported string is a partial id that the first sharing id has in common with the seed or an earlier id |
| Day02Program.FindRepeatFails | Solutions/Day02/Program.cs:70-72 | the scan runs out of ids (`First` throws) exactly when no id shares a partial id with an earlier one and, as written, no id is empty |
| Day02Program.SolvePart2Means | Solutions/Day02/Program.cs:70-72 | `SolvePart2` reports a partial id shared by the first id that shares one with an earlier id; it fails with `InvalidOperation` exactly when no two ids share one and none is empty |
| Day02Program.OneCharacterApart | Solutions/Day02/Program.cs:90-91 | two ids of one length differing only at position k have the same deletion at k |
| Day02Program.SolvePart2CorrectedFinds | Solutions/Day02/Program.cs:70-108 | with every position deletable, any two ids differing in exactly one position make the search succeed |
| Day02Program.SolvePart2MissesLastCharacter | Solutions/Day02/Program.cs:90 | as written, "ab" and "ac", which differ only in their last character, are not found |
| Day02Program.SolvePart2CorrectedFindsLastCharacter | Solutions/Day02/Program.cs:90 | with every position deletable, "ab" and "ac" are found and "a" is reported |
| Day02Program.Part2Example | Solutions/Day02/Program.cs:38-49 | the seven example ids give "fgij" |
| Day03Program.RectCells | Solutions/Day03/Program.cs:116-141 | the cells visited by the two loops are exactly those inside the claim's rectangle |
| Day03Program.WithRectangle | Solutions/Day03/Program.cs:116-141 | adding a claim gives every cell of its rectangle that claim on top of the claims it had, leaves other cells unchanged and never removes a claim |
| Day03Program.WithRectangleTwice | Solutions/Day03/Program.cs:98-103 | adding the same claim twice is the same as adding it once |
| Day03Program.AddRectangle | Solutions/Day03/Program.cs:116-141 | the row-by-row, column-by-column loops build exactly the state with the rectangle added |
| Day03Program.AddRow | Solutions/Day03/Program.cs:126-137 | one pass of the inner loop finishes row `j`: every cell of rows up to `j` holds the claim, the rest keep their sets |
| Day03Program.FilledStep | Solutions/Day03/Program.cs:128-136 | updating one cell (new one-claim set or union into the existing set) extends the finished cells by exactly that cell |
| Day03Program.FilledRow | Solutions/Day03/Program.cs:126-137 | a finished row is the starting point of the next |
| Day03Program.CoveringSnoc | Solutions/Day03/Program.cs:49-51 | one more claim adds its id to exactly the cells it covers |
| Day03Program.FabricMeans | Solutions/Day03/Program.cs:49-51 | after aggregating all claims, a cell is present exactly when some claim covers it and holds the ids of all claims covering it |
| Day03Program.CountOverlappingCells | Solutions/Day03/Program.cs:149-150 | the count of shared cells never exceeds the number of claimed cells |
| Day03Program.MoreThanOne | Solutions/Day03/Program.cs:150 | a cell has more than one claim exactly when two different ids are on it |
| Day03Program.SharedByMeans | Solutions/Day03/Program.cs:150 | two claims with different ids covering a cell is the same as more than one id on it |
| Day03Program.CountOverlappingCellsMeans | Solutions/Day03/Program.cs:149-150 | Part 1 counts exactly the cells covered by two claims with different ids |
| Day03Program.UpdateShares | Solutions/Day03/Program.cs:74-79 | the per-claim maximum share covers the claims already recorded and the claims on this cell |
| Day03Program.MaxSharesDomain | Solutions/Day03/Program.cs:69-80 | a claim gets a maximum share exactly when it is on some cell |
| Day03Program.MaxSharesBound | Solutions/Day03/Program.cs:69-80 | a claim's maximum share is at least the claim count of every cell it is on |
| Day03Program.MaxSharesAttained | Solutions/Day03/Program.cs:69-80 | a claim's maximum share is the claim count of some cell it is on |
| Day03Program.MaxSharesMeans | Solutions/Day03/Program.cs:69-80 | the per-claim value is the maximum, over the claim's cells, of the number of claims on the cell |
| Day03Program.OnesAreAlone | Solutions/Day03/Program.cs:81 | a claim has maximum share 1 exactly when it is on some cell and alone on each of its cells |
| Day03Program.SingletonIs | Solutions/Day03/Program.cs:81-82 | a set holding `c` has one element exactly when it is `{c}` |
| Day03Program.FindNonOverlappingClaimMeans | Solutions/Day03/Program.cs:69-82 | the result is `c` exactly when `c` is the only claim alone on all its cells; otherwise `Single` throws `InvalidOperation` |
| Day03Program.AloneMeans | Solutions/Day03/Program.cs:69-82 | on the fabric, a claim is alone exactly when its rectangle is non-empty and no claim with another id touches any of its cells |
| Day03Program.GetDimensions | Solutions/Day03/Program.cs:160-163 | the dimensions bound every claimed cell, are never negative, and are attained by some cell unless zero |
| Day03Program.ExampleShared | Solutions/Day03/Program.cs:33-47 | in the worked example exactly the four cells (3..4, 3..4) are shared |
| Day03Program.ExampleSharedCells | Solutions/Day03/Program.cs:33-47 | the shared cells of the worked example's fabric are those four |
| Day03Program.ExampleOverlaps | Solutions/Day03/Program.cs:33-47 | Part 1 of the worked example is 4 |
| Day03Program.ExampleCount | Solutions/Day03/Program.cs:33-47 | the four shared cells are four distinct cells |
| Day03Program.ExampleThreeAlone | Solutions/Day03/Program.cs:33-47 | every cell of claim #3 holds claim #3 alone |
| Day03Program.ExampleCornerShared | Solutions/Day03/Program.cs:33-47 | claims #1 and #2 both cover (3, 3) |
| Day03Program.ExampleOnlyThree | Solutions/Day03/Program.cs:33-47 | claim #3 is the only claim alone on all its cells |
| Day03Program.ExampleNonOverlapping | Solutions/Day03/Program.cs:33-47 | Part 2 of the worked example is claim 3 |
| Day04State.GetMinutes | Solutions/Day04/State.cs:191 | the minutes past midnight of a timestamp, always below one day |
| Day04State.Bump | Solutions/Day04/State.cs:185-187 | one more day asleep at a minute adds that minute to the counts |
| Day04State.BumpRange | Solutions/Day04/State.cs:182-187 | every minute of the range gains one day asleep, every other minute keeps its count |
| Day04State.AddSleepyTime | Solutions/Day04/State.cs:166-189 | a negative range length throws `ArgumentOutOfRange`; otherwise only the guard's counts change, each minute of the range gaining one and a guard seen for the first time starting from 1 |
| Day04State.ShiftStart | Solutions/Day04/State.cs:75-79 | a shift starting after 22:59 counts from the next midnight, any other shift from its own time |
| Day04State.ChangeGuard | Solutions/Day04/State.cs:67-99 | a successful change of guard yields a well-formed state |
| Day04State.GuardSleeps | Solutions/Day04/State.cs:107-130 | a successful falling-asleep yields a well-formed state |
| Day04State.GuardWakes | Solutions/Day04/State.cs:138-164 | a successful waking yields a well-formed state |
| Day04State.ChangeGuardFirst | Solutions/Day04/State.cs:69-73 | the first shift only records the guard, awake, at the given time |
| Day04State.ChangeGuardMeans | Solutions/Day04/State.cs:67-99 | a later shift throws `Argument` exactly when its adjusted day is not after the last change's day; otherwise the new guard is awake from the adjusted time and a guard left asleep gains the rest of the midnight hour |
| Day04State.GuardSleepsMeans | Solutions/Day04/State.cs:107-130 | falling asleep throws with no guard, a guard already asleep, a time before the last change or outside the midnight hour, with the source's error kinds; otherwise only the awake flag and time change |
| Day04State.GuardWakesMeans | Solutions/Day04/State.cs:138-164 | waking throws in the mirrored cases and for a negative range; otherwise the guard gains the minutes from the last change to the minute before now |
| Day04State.TotalAsleepRemove | Solutions/Day04/State.cs:166-189 | a guard's total asleep is any one minute's count plus the total of the others |
| Day04State.TotalAsleepBump | Solutions/Day04/State.cs:185-187 | one more day asleep at a minute adds one to the guard's total |
| Day04State.TotalAsleepBumpRange | Solutions/Day04/State.cs:182-187 | a range of minutes adds its length to the guard's total |
| Day04State.AddSleepyTimeTotal | Solutions/Day04/State.cs:166-189 | recording a sleep adds the number of minutes slept to the guard's total |
| Day04Program.Apply | Solutions/Day04/Program.cs:115-117 | handling one record that succeeds yields a well-formed state |
| Day04Program.NotifyReceiver.constructor | Solutions/Day04/Program.cs:105-111 | the receiver holds the given state and time |
| Day04Program.NotifyReceiver.BeginShift | Solutions/Day04/Program.cs:115 | the receiver's state becomes the change of guard, or stays and reports the error it throws |
| Day04Program.NotifyReceiver.FallsAsleep | Solutions/Day04/Program.cs:116 | the receiver's state becomes the falling-asleep state, or stays and reports the error |
| Day04Program.NotifyReceiver.WakesUp | Solutions/Day04/Program.cs:117 | the receiver's state becomes the waking state, or stays and reports the error |
| Day04Program.ProcessNotification | Solutions/Day04/Program.cs:84-91 | running a record's callback on a fresh receiver is the record's transition |
| Day04Program.Run | Solutions/Day04/Program.cs:65-67 | a run that succeeds ends in a well-formed state |
| Day04Program.RunStep | Solutions/Day04/Program.cs:67 | a failing record fails the whole run with its error; otherwise the run continues from its result |
| Day04Program.RunAppend | Solutions/Day04/Program.cs:67 | running two batches of records is running the first, then the second from its result |
| Day04Program.Insert | Solutions/Day04/Program.cs:66 | inserting a record adds exactly that record |
| Day04Program.InsertSorted | Solutions/Day04/Program.cs:66 | inserting into time-ordered records keeps them time-ordered |
| Day04Program.SortByTime | Solutions/Day04/Program.cs:66 | ordering by time gives a time-ordered permutation of the records |
| Day04Program.KeyOrder | Solutions/Day04/Program.cs:69-72 | a dictionary enumeration visits every key exactly once |
| Day04Program.LastMaxIndex | Solutions/Day04/Program.cs:71-72 | `OrderBy(...).Last()` picks a highest score, the last of the highest in enumeration order |
| Day04Program.GuardTotals | Solutions/Day04/Program.cs:71 | each guard's sort key is the sum of its minute counts |
| Day04Program.MinuteCounts | Solutions/Day04/Program.cs:78 | each minute's sort key is its count |
| Day04Program.MostAsleepGuard | Solutions/Day04/Program.cs:69-73 | the chosen guard has slots, no guard has a larger total, and guards enumerated after it have a smaller one |
| Day04Program.GuardChoice | Solutions/Day04/Program.cs:69-72 | the last highest total in enumeration order is a guard with the largest total |
| Day04Program.MostAsleepMinute | Solutions/Day04/Program.cs:78 | the chosen minute has the largest count, and minutes enumerated after it have a smaller one |
| Day04Program.MinuteChoice | Solutions/Day04/Program.cs:78 | the last highest count in enumeration order is a minute with the largest count |
| Day04Program.MostAsleep | Solutions/Day04/Program.cs:69-78 | `Last()` throws `InvalidOperation` exactly when no guard has slots or the chosen guard has none; otherwise the chosen guard and minute |
| Day04Program.Part1Means | Solutions/Day04/Program.cs:63-81 | Part 1 succeeds exactly when the time-ordered run and the choice succeed, and is then the product of the chosen guard and minute |
| Day05Program.ToLower | Solutions/Day05/Program.cs:47 | an upper-case ASCII letter maps to its lower-case letter, every other character to itself |
| Day05Program.ToUpper | Solutions/Day05/Program.cs:33 | a lower-case ASCII letter maps to its upper-case letter, every other character to itself |
| Day05Program.ReactsMeans | Solutions/Day05/Program.cs:47 | two units react exactly when they are the same letter in opposite cases |
| Day05Program.Buffer2 | Solutions/Day05/Program.cs:51 | `Buffer(2, 1)` gives one window per unit: the unit and the next one, or the last unit alone |
| Day05Program.CountWhile | Solutions/Day05/Program.cs:51 | `TakeWhile(...).Count()` counts the windows before the first full reacting pair |
| Day05Program.FirstReactable | Solutions/Day05/Program.cs:51 | the index is the first reacting pair, or the length when no pair reacts |
| Day05Program.FirstReactableAt | Solutions/Day05/Program.cs:51 | a reacting pair with no reacting pair before it is the index found |
| Day05Program.FirstReactableNone | Solutions/Day05/Program.cs:51-52 | with no reacting pair the index is the length, so nothing reacts |
| Day05Program.ProcessOneReaction | Solutions/Day05/Program.cs:49-57 | a reaction shortens the polymer by two, no reaction leaves the length |
| Day05Program.ProcessOneReactionMeans | Solutions/Day05/Program.cs:49-57 | a reaction happens exactly when some adjacent pair reacts, and removes the leftmost such pair keeping the rest in order; otherwise the input is returned |
| Day05Program.ProcessAllReactions | Solutions/Day05/Program.cs:59-70 | the sequence starts with the input polymer |
| Day05Program.ProcessAllReactionsSteps | Solutions/Day05/Program.cs:59-70 | each listed polymer is the reaction of the one before it |
| Day05Program.LastOfCons | Solutions/Day05/Program.cs:20 | the last of a list with an element in front is the last of the list |
| Day05Program.ProcessAllReactionsEnds | Solutions/Day05/Program.cs:59-70 | the sequence ends at a polymer with no reacting pair |
| Day05Program.ProcessAllReactionsLengths | Solutions/Day05/Program.cs:59-70 | the k-th listed polymer is 2k units shorter than the input |
| Day05Program.ProcessAllReactionsStep | Solutions/Day05/Program.cs:59-70 | a reaction puts its input in front of the sequence for its result |
| Day05Program.Part1 | Solutions/Day05/Program.cs:18-22 | the reacted length is at most the input length and differs from it by an even number |
| Day05Program.Part1Reacted | Solutions/Day05/Program.cs:18-22 | Part 1 is the length of a polymer that has no reacting pair left |
| Day05Program.Remove | Solutions/Day05/Program.cs:32 | `Replace(c, "")` keeps exactly the other units |
| Day05Program.RemoveAppend | Solutions/Day05/Program.cs:32 | `Replace(c, "")` distributes over concatenation, so the units other than `c` stay in their order |
| Day05Program.RemoveUnit | Solutions/Day05/Program.cs:32 | `Replace(c, "")` drops a lone unit exactly when it is `c` |
| Day05Program.WithoutUnit | Solutions/Day05/Program.cs:31-33 | removing a unit type drops it in both cases and keeps every other unit |
| Day05Program.Lowered | Solutions/Day05/Program.cs:26 | every unit lower-cased, position by position |
| Day05Program.ShortestMeans | Solutions/Day05/Program.cs:27-44 | the minimum is at most the start and every unit's reacted length, and equals one of them |
| Day05Program.Part2 | Solutions/Day05/Program.cs:24-45 | the loop returns the least of the input length and the reacted lengths after removing each unit type present |
| Day05Program.ReactionExample1 | Solutions/Tests/Day05Tests.cs:11-15 | `aA` reacts to the empty polymer |
| Day05Program.ReactionExample2 | Solutions/Tests/Day05Tests.cs:18-22 | `abBA` reacts once to `aA` |
| Day05Program.ReactionExample3 | Solutions/Tests/Day05Tests.cs:25-29 | `abAB` does not react |
| Day05Program.ReactionExample4 | Solutions/Tests/Day05Tests.cs:32-36 | `aabAAB` does not react |
| Day05Program.ExampleStep1 | Solutions/Tests/Day05Tests.cs:44-45 | the worked polymer's first reaction |
| Day05Program.ExampleStep2 | Solutions/Tests/Day05Tests.cs:45-46 | the worked polymer's second reaction |
| Day05Program.ExampleStep3 | Solutions/Tests/Day05Tests.cs:46-47 | the worked polymer's third reaction |
| Day05Program.ExampleStep4 | Solutions/Tests/Day05Tests.cs:47 | the fully reacted worked polymer does not react |
| Day05Program.ExampleFrom4 | Solutions/Tests/Day05Tests.cs:47 | the sequence from the fully reacted polymer is that polymer alone |
| Day05Program.ExampleFrom3 | Solutions/Tests/Day05Tests.cs:46-47 | the sequence from the third polymer has the last two steps |
| Day05Program.ExampleFrom2 | Solutions/Tests/Day05Tests.cs:45-47 | the sequence from the second polymer has the last three steps |
| Day05Program.Example | Solutions/Tests/Day05Tests.cs:39-51 | the worked polymer goes through exactly the four listed polymers |
| Day05Program.Part1Example | Solutions/Tests/Day05Tests.cs:54-57 | Part 1 of the worked polymer is 10 |
| Day06Program.GetQuadrantsMeans | Solutions/Day06/Program.cs:352-370 | with the y axis inverted, a point is in a quadrant exactly when it is at least as far from the centre in that direction as it is sideways |
| Day06Program.SelfInAllQuadrants | Solutions/Day06/Program.cs:361-369 | the centre seen from itself lies in all four quadrants |
| Day06Program.GetQuadrantsCount | Solutions/Day06/Program.cs:352-370 | every point lies in some quadrant; a point on a diagonal through the centre lies in exactly two adjacent ones, any other point in exactly one |
| Day06Program.QuadrantExamples | Solutions/Tests/Day06Tests.cs:10-93 | every quadrant case asserted around (5, 5) |
| Day06Program.ManhattanDistanceMetric | Solutions/Day06/Program.cs:271-273 | the distance is symmetric, zero exactly between equal points, and obeys the triangle inequality |
| Day06Program.GetBoundingBoxFromOrigin | Solutions/Day06/Program.cs:219-222 | the box starts at (0, 0), bounds every point, and each side is 0 or attained by some point |
| Day06Program.Grid | Solutions/Day06/Program.cs:246-247 | the cells are exactly those with 0 <= x < w and 0 <= y < h |
| Day06Program.MinDistance | Solutions/Day06/Program.cs:248 | the least distance from a cell to the points, attained by one of them |
| Day06Program.AtDistance | Solutions/Day06/Program.cs:248 | only input points at the given distance are listed |
| Day06Program.AtDistanceSingle | Solutions/Day06/Program.cs:248-250 | a single point at the distance gives a one-element result holding it |
| Day06Program.AtDistanceNone | Solutions/Day06/Program.cs:248-249 | no point at the distance gives an empty result |
| Day06Program.AtDistanceOne | Solutions/Day06/Program.cs:248-250 | a one-element result comes from exactly one input point at the distance |
| Day06Program.AtDistanceEmpty | Solutions/Day06/Program.cs:248-249 | an empty result means no input point is at the distance |
| Day06Program.NearestUnique | Solutions/Day06/Program.cs:248-250 | `MinBy` yields exactly one point when one input entry is strictly nearest, and then that entry |
| Day06Program.PopulateRegions | Solutions/Day06/Program.cs:242-253 | a grid cell is in the map exactly when one point is strictly nearest to it, and then maps to that point |
| Day06Program.GetRegionSizes | Solutions/Day06/Program.cs:235-240 | each centre owning a cell appears with the number of cells it owns |
| Day06Program.PointQuadrantsMeans | Solutions/Day06/Program.cs:209-213 | the folded quadrant set has a bit set exactly when some other point lies in that quadrant |
| Day06Program.GetFiniteRegionCentresFrom | Solutions/Day06/Program.cs:215-216 | the kept points are exactly those whose folded quadrants are `All` |
| Day06Program.AllMeans | Solutions/Day06/Program.cs:216 | a quadrant set is `All` exactly when all four bits are set |
| Day06Program.GetFiniteRegionCentresMeans | Solutions/Day06/Program.cs:206-217 | a point is a finite-region centre exactly when some other input point lies in each of its four quadrants |
| Day06Program.GetFiniteRegionSizes | Solutions/Day06/Program.cs:224-233 | the sizes of exactly the regions whose centres are finite |
| Day06Program.MaxSize | Solutions/Day06/Program.cs:191 | `Max` throws `InvalidOperation` on no regions, and otherwise is the largest size, attained by some region |
| Day06Program.DistanceSum | Solutions/Day06/Program.cs:261 | the distance sum is at least the distance to the first point |
| Day06Program.PopulateDistanceSumMap | Solutions/Day06/Program.cs:255-264 | each grid cell maps to its distance sum, and no other key is present |
| Day06Program.GetSizeOfRegionWhereDistanceSumIsBelowThreshold | Solutions/Day06/Program.cs:266-269 | the count never exceeds the number of cells |
| Day06Program.BelowThresholdMeans | Solutions/Day06/Program.cs:255-269 | over a w by h sum map, the count is the number of grid cells whose distance sum is strictly below the threshold |
| Day06Program.SolvePart2Means | Solutions/Day06/Program.cs:194-199 | Part 2 counts the cells of the bounding box whose distance sum is strictly below the threshold |
| Day07State.AddPrerequisite | Solutions/Day07/State.cs:38-43 | the gated step gains the prerequisite (starting from no prerequisites when new); every other step is unchanged |
| Day07State.EnsureStepKnown | Solutions/Day07/State.cs:45-47 | the step becomes known with nothing to wait for unless already known; known steps are unchanged |
| Day07State.MakeInitialMeans | Solutions/Day07/State.cs:32-36 | the initial state knows exactly the steps some rule names, each waiting on exactly the prerequisites the rules give it |
| Day07State.PrerequisitesSnoc | Solutions/Day07/State.cs:34-36 | one more rule adds its prerequisite to exactly the step it gates |
| Day07State.HasLeast | Solutions/Day07/State.cs:19 | a non-empty set of steps has a least member |
| Day07State.Least | Solutions/Day07/State.cs:19 | the least step of a non-empty set |
| Day07State.Ascending | Solutions/Day07/State.cs:19-21 | `OrderBy` lists every step of the set once, in strictly ascending order |
| Day07State.NextAvailable | Solutions/Day07/State.cs:17-21 | the available steps are exactly the known steps waiting for nothing, in ascending order |
| Day07State.TopNextAvailable | Solutions/Day07/State.cs:61-63 | throws `InvalidOperation` exactly when no step is available; otherwise the least step waiting for nothing |
| Day07State.ExecuteStep | Solutions/Day07/State.cs:70-74 | executing a step removes it and removes it from every other step's wait set |
| Day07State.ExecuteStepCount | Solutions/Day07/State.cs:70-74 | executing a known step leaves one step fewer |
| Day07Elves.Create | Solutions/Day07/NationalElfService.cs:21-23 | a negative worker count throws `ArgumentOutOfRange`; otherwise that many idle slots with the given base time |
| Day07Elves.GetStepExecutionTime | Solutions/Day07/NationalElfService.cs:59 | a step takes its distance from 'A' plus the base time |
| Day07Elves.IdleIndices | Solutions/Day07/NationalElfService.cs:45 | the idle slots' indices, each once, in ascending order |
| Day07Elves.Zip | Solutions/Day07/NationalElfService.cs:43-45 | `Zip` pairs elements position by position up to the shorter length |
| Day07Elves.StartWork | Solutions/Day07/NationalElfService.cs:47-49 | starting work keeps the number of slots |
| Day07Elves.StartWorkMeans | Solutions/Day07/NationalElfService.cs:47-49 | with distinct slots, each paired slot gets its step with its full execution time and every other slot is unchanged |
| Day07Elves.PassAsWritten | Solutions/Day07/NationalElfService.cs:28-41 | as written, the completion pass throws `NullReference` exactly when it reaches an idle slot, and leaves later slots unvisited |
| Day07Elves.ProcessOneSecondAsWritten | Solutions/Day07/NationalElfService.cs:25-52 | as written, a second throws exactly when some slot is idle |
| Day07Elves.ProcessOneSecondAsWrittenFailsWhenIdle | Solutions/Day07/NationalElfService.cs:33-34 | as written, a freshly created service with a worker throws on its first second |
| Day07Elves.ProcessOneSecondAsWrittenLosesCompletion | Solutions/Day07/NationalElfService.cs:35 | as written, when two workers finish in one second both are reported but the first one's step stays in the step state |
| Day07Elves.Pass | Solutions/Day07/NationalElfService.cs:28-41 | the corrected completion pass keeps the number of slots and leaves unvisited slots alone |
| Day07Elves.ExecutedCompose | Solutions/Day07/NationalElfService.cs:35 | executing one list of steps and then another executes both |
| Day07Elves.PassCompleted | Solutions/Day07/NationalElfService.cs:37 | the pass reports exactly the steps of the slots on their last minute, in slot order |
| Day07Elves.PassExecutes | Solutions/Day07/NationalElfService.cs:35 | the pass executes every step it reports on the accumulated step state |
| Day07Elves.PassSlots | Solutions/Day07/NationalElfService.cs:34-40 | the pass empties each finishing slot, counts down every other busy slot and leaves idle slots idle |
| Day07Elves.Without | Solutions/Day07/NationalElfService.cs:43-45 | the corrected start list (see Findings): exactly the available steps that no busy slot works on remain, in order |
| Day07Elves.AscendingWithout | Solutions/Day07/NationalElfService.cs:43-45 | the corrected start list (see Findings) stays ascending, as `NextAvailable` is, so the idle slots are paired with the steps in ascending order |
| Day07Elves.AscendingHead | Solutions/Day07/State.cs:19 | in a strictly ascending list the head is below every later entry |
| Day07Elves.Started | Solutions/Day07/NationalElfService.cs:43-49 | starting work keeps the number of slots |
| Day07Elves.ProcessOneSecondUnfiltered | Solutions/Day07/NationalElfService.cs:43-49 | with the completion pass corrected but the start list as written, one second keeps the slots, the base time and the pass's step state |
| Day07Elves.ProcessOneSecondUnfilteredRestartsStep | Solutions/Day07/NationalElfService.cs:43-45 | as written, two idle workers with only C ready both end up on C after two seconds |
| Day07Elves.ProcessOneSecond | Solutions/Day07/NationalElfService.cs:25-52 | the corrected second (see Findings) keeps the number of slots and the base time |
| Day07Elves.ZipIdleFacts | Solutions/Day07/NationalElfService.cs:43-45 | the work paired with the idle slots names distinct slots, each idle |
| Day07Elves.StartedKeepsBusy | Solutions/Day07/NationalElfService.cs:45-49 | starting work never touches a slot that was busy at the start of the second |
| Day07Elves.StartedSourceAt | Solutions/Day07/NationalElfService.cs:43-49 | a slot filled in a second is the k-th idle slot and gets the k-th available step with its full time |
| Day07Elves.StartedSource | Solutions/Day07/NationalElfService.cs:43-49 | every slot filled in a second gets an available step with its full time |
| Day07Elves.StartedDistinct | Solutions/Day07/NationalElfService.cs:43-49 | two slots started in one second get different steps |
| Day07Elves.ProcessOneSecondBusySlots | Solutions/Day07/NationalElfService.cs:34-40 | over one second a busy slot counts down, or empties on its last minute |
| Day07Elves.ProcessOneSecondIdleSlots | Solutions/Day07/NationalElfService.cs:43-49 | with the corrected second, an idle slot stays idle or starts, with its full time, a step that is ready after this second's completions and that no busy slot still works on |
| Day07Elves.ProcessOneSecondStartsDistinct | Solutions/Day07/NationalElfService.cs:43-49 | with the corrected second, two idle slots never start the same step in one second |
| Day07Elves.FinishingMembers | Solutions/Day07/NationalElfService.cs:34-37 | the finishing steps are exactly those of slots on their last minute |
| Day07Elves.FinishingDistinct | Solutions/Day07/NationalElfService.cs:34-37 | when busy slots work on different steps, no step finishes twice |
| Day07Elves.ProcessOneSecondCompletes | Solutions/Day07/NationalElfService.cs:25-52 | one second reports exactly the steps of the slots on their last minute, each once, and executes all of them |
| Day07Elves.CreateValid | Solutions/Day07/NationalElfService.cs:21-23 | a freshly created service satisfies the service invariant |
| Day07Elves.KeptStepNotDone | Solutions/Day07/NationalElfService.cs:38-40 | a step a slot keeps working on is not completed in that second |
| Day07Elves.ProcessOneSecondKeepsReady | Solutions/Day07/NationalElfService.cs:25-52 | with the corrected second, after a second every busy slot works on a known step that waits for nothing |
| Day07Elves.ProcessOneSecondKeepsDistinct | Solutions/Day07/NationalElfService.cs:25-52 | with the corrected second, after a second no two busy slots share a step |
| Day07Elves.ProcessOneSecondKeepsValid | Solutions/Day07/NationalElfService.cs:25-52 | with the corrected second, one second keeps the service invariant with the updated step state |
| Day07Program.Steps | Solutions/Day07/Program.cs:61-62 | the steps of a run, position by position |
| Day07Program.RunFromCons | Solutions/Day07/Program.cs:64-69 | a run that can pick a step reports the least available one and goes on from the state with it executed, which knows one step fewer |
| Day07Program.RunFromEmpty | Solutions/Day07/Program.cs:67 | a run from a state with nothing available is empty |
| Day07Program.RunFromPicksTop | Solutions/Day07/Program.cs:64-69 | each reported step is the least step waiting for nothing in the state it is reported with |
| Day07Program.RunFromKnown | Solutions/Day07/Program.cs:64-69 | every reported step is known to the starting state |
| Day07Program.RunFromDistinct | Solutions/Day07/Program.cs:64-69 | no step is reported twice |
| Day07Program.InPrefixShift | Solutions/Day07/Program.cs:64-69 | a step in a prefix of the tail is in the longer prefix of the whole run |
| Day07Program.RunFromRespectsPrerequisites | Solutions/Day07/Program.cs:64-69 | a step is reported only after every step it waited for at the start |
| Day07Program.RunFromOrder | Solutions/Day07/Program.cs:64-69 | a run's steps are known, distinct and each after all its prerequisites |
| Day07Program.Part1Unfold | Solutions/Day07/Program.cs:61-62 | Part 1 is the steps of the run from the rules' starting state |
| Day07Program.Part1Steps | Solutions/Day07/Program.cs:61-62 | Part 1's order names only steps some rule mentions, and none twice |
| Day07Program.Part1RespectsRules | Solutions/Day07/Program.cs:61-62 | Part 1's order puts every rule's prerequisite before the step it gates |
| Day07Program.TopIs | Solutions/Day07/State.cs:61-63 | the least step waiting for nothing is the one picked |
| Day07Program.RunFromStep | Solutions/Day07/Program.cs:64-69 | one pick of a run puts the picked step in front of the rest |
| Day07Program.RunFromEnd | Solutions/Day07/Program.cs:67 | the example run ends once every step is executed |
| Day07Program.ExamplePick0 | Solutions/Day07/Program.cs:23-29 | the example picks 'C' first |
| Day07Program.ExamplePick1 | Solutions/Day07/Program.cs:23-29 | then 'A' |
| Day07Program.ExamplePick2 | Solutions/Day07/Program.cs:23-29 | then 'B' |
| Day07Program.ExamplePick3 | Solutions/Day07/Program.cs:23-29 | then 'D' |
| Day07Program.ExamplePick4 | Solutions/Day07/Program.cs:23-29 | then 'F' |
| Day07Program.ExamplePick5 | Solutions/Day07/Program.cs:23-29 | then 'E' |
| Day07Program.ExampleFrom5 | Solutions/Day07/Program.cs:23-29 | the example's run after five picks is "E" |
| Day07Program.ExampleFrom4 | Solutions/Day07/Program.cs:23-29 | after four picks, "FE" |
| Day07Program.ExampleFrom3 | Solutions/Day07/Program.cs:23-29 | after three picks, "DFE" |
| Day07Program.ExampleFrom2 | Solutions/Day07/Program.cs:23-29 | after two picks, "BDFE" |
| Day07Program.ExampleFrom1 | Solutions/Day07/Program.cs:23-29 | after one pick, "ABDFE" |
| Day07Program.ExampleFrom0 | Solutions/Day07/Program.cs:23-29 | the whole example run is "CABDFE" |
| Day07Program.ExampleNamed | Solutions/Day07/Program.cs:21-30 | the example rules name exactly the steps A to F |
| Day07Program.ExamplePrerequisites | Solutions/Day07/Program.cs:21-30 | what each example step waits for |
| Day07Program.ExampleStart | Solutions/Day07/Program.cs:21-36 | the example rules give the example's starting state |
| Day07Program.Part1Example | Solutions/Tests/Day07Tests.cs:11-15 | Part 1 of the example rules is "CABDFE" |
| Day07Program.ExampleOrder | Solutions/Tests/Day07Tests.cs:14 | the picked steps spell "CABDFE" |
| Day07Program.ExampleInputIs | Solutions/Day07/Program.cs:21-34 | `ExampleInput` is the seven example rules |
| Day07Program.Part1ExampleInput | Solutions/Tests/Day07Tests.cs:11-15 | Part 1 of `ExampleInput` itself is "CABDFE" |
| Day07Program.Advance | Solutions/Day07/Program.cs:87-91 | one second keeps the number of workers |
| Day07Program.RunPart2 | Solutions/Day07/Program.cs:80-93 | part 2 throws exactly for a negative worker count; otherwise the seconds after the start, fewer than the bound |
| Day07Program.RunPart2AsWrittenFails | Solutions/Day07/Program.cs:80-93 | as written, part 2 throws `NullReference` on its first second whenever there is a worker and a step to start |
| Day07Program.RunPart2ExampleAsWrittenFails | Solutions/Day07/Program.cs:43 | as written, the example run with two workers throws |
| Day07Program.AdvanceCompletesReady | Solutions/Day07/Program.cs:89-90 | the steps completed in a second were known and had all their prerequisites done |
| Day07Program.AdvanceDistinct | Solutions/Day07/Program.cs:89-90 | with the corrected second, one second keeps the completed steps distinct |
| Day07Program.AdvanceOrdered | Solutions/Day07/Program.cs:89-90 | one second completes steps only after all their prerequisites |
| Day07Program.AdvanceConsistent | Solutions/Day07/Program.cs:87-91 | with the corrected second, one second keeps the part 2 invariant: the step state is the start with the completed steps executed, each completed once and after its prerequisites, and the workers valid |
| Day07Program.GenerateConsistent | Solutions/Day07/Program.cs:84-92 | with the corrected second, every generated second keeps the invariant |
| Day07Program.RunPart2ConsistentAt | Solutions/Day07/Program.cs:80-93 | with the corrected second, each reported second keeps the invariant relative to the rules' starting state |
| Day07Program.RunPart2Consistent | Solutions/Day07/Program.cs:80-93 | with the corrected second, part 2 succeeds for a non-negative worker count and every reported second keeps the invariant |
| Day08Program.Encode | Solutions/Day08/Program.cs:15-22 | the grammar's encoding of a node: child count, metadata count, children, metadata; never shorter than its two counts |
| Day08Program.DecodeNode | Solutions/Day08/Program.cs:15-22 | a parsed node consumes at least its two counts, no more than the input, and exactly as many integers as its encoding |
| Day08Program.DecodeNodes | Solutions/Day08/Program.cs:18 | `count(k, NodeParser)` reads exactly k nodes and consumes exactly their encodings |
| Day08Program.ParseLine | Solutions/Day08/Program.cs:24 | a line that parses as one whole node is that node's encoding, unless it holds a negative count |
| Day08Program.DecodeEncode | Solutions/Day08/Program.cs:15-22 | parsing an encoded node followed by anything gives that node back and consumes exactly its encoding |
| Day08Program.DecodeEncodeAll | Solutions/Day08/Program.cs:18 | parsing k encoded nodes gives them back and consumes exactly their encodings |
| Day08Program.DecodeNodesCons | Solutions/Day08/Program.cs:18 | reading k nodes is reading one node and then k - 1 more after it |
| Day08Program.DecodeWellFormed | Solutions/Day08/Program.cs:15-22 | on input without negative numbers, what a parsed node consumes is exactly its encoding |
| Day08Program.DecodeAllWellFormed | Solutions/Day08/Program.cs:18 | on input without negative numbers, what k parsed nodes consume is exactly their encodings |
| Day08Program.SizeAllAppend | Solutions/Day08/Program.cs:35 | the node count of two lists is the sum of their counts |
| Day08Program.ChildrenOf | Solutions/Day08/Program.cs:35 | the next level holds every node of the level's subtrees except the level itself |
| Day08Program.MetadataSumAppend | Solutions/Day08/Program.cs:36-37 | the metadata sum of two lists is the sum of their sums |
| Day08Program.TreeSumAllAppend | Solutions/Day08/Program.cs:36-37 | the tree sum of two lists is the sum of their tree sums |
| Day08Program.TreeSumAllLevel | Solutions/Day08/Program.cs:35-37 | a level's tree sum is its own metadata plus the tree sum of the next level |
| Day08Program.ExpandSum | Solutions/Day08/Program.cs:35-37 | the metadata sum over the breadth-first expansion is the level's tree sum |
| Day08Program.Part1IsTreeSum | Solutions/Day08/Program.cs:33-37 | Part 1 sums the metadata of the node and of all its descendants, each once |
| Day08Program.ParseExample | Solutions/Tests/Day08Tests.cs:13-33 | the example line parses to A(B, C(D)) with metadata [1,1,2], [10,11,12], [2] and [99] |
| Day08Program.Part1Example | Solutions/Tests/Day08Tests.cs:36-40 | the example's metadata sum is 138 |
| Day09GameState.InsertAt | Solutions/Day09/GameState.cs:49 | `Insert` puts the value at the position and shifts the later entries up by one |
| Day09GameState.RemoveAt | Solutions/Day09/GameState.cs:39 | `RemoveAt` drops the entry at the position and shifts the later entries down by one |
| Day09GameState.InsertRemove | Solutions/Day09/GameState.cs:39-49 | removing what was inserted gives the list back |
| Day09GameState.RemoveInsert | Solutions/Day09/GameState.cs:39-49 | inserting what was removed, where it was, gives the list back |
| Day09GameState.Mod | Solutions/Day09/GameState.cs:35 | C#'s `%` on a non-negative dividend lies in [0, n) |
| Day09GameState.ModOnce | Solutions/Day09/GameState.cs:35 | below twice the divisor the remainder needs at most one subtraction |
| Day09GameState.RemainderUnique | Solutions/Day09/GameState.cs:35 | a value of the form q * n + r with r in [0, n) has remainder r |
| Day09GameState.ModShift | Solutions/Day09/GameState.cs:35 | subtracting the divisor keeps the remainder |
| Day09GameState.ModIsRemainder | Solutions/Day09/GameState.cs:35 | C#'s `%` on a non-negative dividend agrees with Dafny's remainder |
| Day09GameState.Initial | Solutions/Day09/GameState.cs:25 | the game starts with marble 0 alone, current, before turn 1; the start is reachable and its marbles distinct |
| Day09GameState.MarbleCountStep | Solutions/Day09/GameState.cs:29-54 | each turn adds a marble, except every 23rd turn, which removes one from a circle of at least 23 |
| Day09GameState.Place | Solutions/Day09/GameState.cs:44-53 | an ordinary turn keeps the state reachable, advances the turn, and makes current the place two after the current marble |
| Day09GameState.Take | Solutions/Day09/GameState.cs:33-43 | a 23rd turn keeps the state reachable, advances the turn, and makes current the place seven anticlockwise |
| Day09GameState.Next | Solutions/Day09/GameState.cs:29-54 | a turn advances the turn number and scores exactly when the new turn is a multiple of 23 |
| Day09GameState.NextMeans | Solutions/Day09/GameState.cs:29-54 | an ordinary turn inserts its marble so that removing it gives the old circle; a 23rd turn removes the marble seven anticlockwise, so putting it back gives the old circle, and scores it plus the turn |
| Day09GameState.RemoveAtDistinct | Solutions/Day09/GameState.cs:39 | removing a marble keeps the others distinct and in range |
| Day09GameState.InsertAtDistinct | Solutions/Day09/GameState.cs:49 | inserting a new highest marble keeps the marbles distinct |
| Day09GameState.NextDistinct | Solutions/Day09/GameState.cs:29-54 | a turn keeps the marbles distinct and numbered up to the last turn |
| Day09GameState.NextPlaces | Solutions/Day09/GameState.cs:44-53 | an ordinary turn is the list insertion at one past the place after the current marble |
| Day09GameState.NextTakes | Solutions/Day09/GameState.cs:33-43 | a 23rd turn is the list removal seven places anticlockwise, scoring the removed marble plus the turn |
| Day09Program.Advance | Solutions/Day09/Program.cs:21-26 | k turns keep the state reachable and advance the turn number by k |
| Day09Program.StepAt | Solutions/Day09/Program.cs:21-26 | element k of the generated steps is the state after turn k |
| Day09Program.StepAtNext | Solutions/Day09/Program.cs:21-26 | the steps start from the initial state with no score and each is the next turn of the one before |
| Day09Program.AdvanceDistinct | Solutions/Day09/Program.cs:21-26 | every state reached keeps its marbles distinct |
| Day09Program.StepAtDistinct | Solutions/Day09/Program.cs:21-26 | every generated state keeps its marbles distinct |
| Day09Program.StepScores | Solutions/Day09/Program.cs:21-26 | a generated step scores exactly when its turn is a positive multiple of 23 |
| Day09Program.Turns | Solutions/Day09/Program.cs:29-30 | `Take(n)` of the steps has n elements, numbered by turn |
| Day09Program.TurnsAt | Solutions/Day09/Program.cs:29-30 | element k of `Take(n)` is turn k with its score |
| Day09Program.Credit | Solutions/Day09/Program.cs:33-35 | a scoring turn credits its score to player `LastTurn % players`, which throws `DivideByZero` with no players; a quiet turn changes nothing |
| Day09Program.ScoresOf | Solutions/Day09/Program.cs:31-35 | the aggregate keeps one score per player |
| Day09Program.Zeros | Solutions/Day09/Program.cs:32 | every player starts with score 0 |
| Day09Program.Scores | Solutions/Day09/Program.cs:28-35 | one score per player |
| Day09Program.ScoresOfFails | Solutions/Day09/Program.cs:31-35 | the aggregate throws exactly when there are no players and some turn scores |
| Day09Program.TurnScores | Solutions/Day09/Program.cs:28-35 | element k of the taken steps scores exactly when k is a positive multiple of 23 |
| Day09Program.OnlyMultipleBelow46 | Solutions/Day09/GameState.cs:33 | below 46, 23 is the only positive multiple of 23 |
| Day09Program.ScoresBy23 | Solutions/Day09/Program.cs:28-35 | more than 23 steps include a scoring turn |
| Day09Program.ScoresOnlyFrom23 | Solutions/Day09/Program.cs:28-35 | a scoring turn needs more than 23 steps |
| Day09Program.TurnsScore | Solutions/Day09/Program.cs:28-35 | some taken turn scores exactly when more than 23 steps are taken |
| Day09Program.PlayFails | Solutions/Day09/Program.cs:28-35 | `Play` throws exactly for a negative player count, or for no players once a turn has scored |
| Day09Program.ScoresOfTotal | Solutions/Day09/Program.cs:31-35 | every turn score is credited to exactly one player, so the scores gain the turn scores' total |
| Day09Program.ZerosSum | Solutions/Day09/Program.cs:32 | the starting scores add up to 0 |
| Day09Program.PlayTotal | Solutions/Day09/Program.cs:28-35 | with players, the final scores add up to the scores of all turns played |
| Day09Program.Part1 | Solutions/Day09/Program.cs:37-39 | a result needs players and is the highest score after turn `steps`, attained by some player |
| Day09Program.ScoresOfQuiet | Solutions/Day09/Program.cs:33-35 | turns that do not score leave the scores as they are |
| Day09Program.ScoresOfSplit | Solutions/Day09/Program.cs:31-35 | the aggregate over a list is the aggregate over a prefix, then one turn, then the rest |
| Day09Program.ExampleTurn0 | Solutions/Tests/Day09Tests.cs:14-21 | the example's state after turn 0: marbles and current position |
| Day09Program.ExamplePlace1 | Solutions/Tests/Day09Tests.cs:24-31 | the circle after turn 1 of the example, as a list insertion |
| Day09Program.ExampleNext1 | Solutions/Tests/Day09Tests.cs:24-31 | turn 1 of the example from the state after turn 0 |
| Day09Program.ExampleTurn1 | Solutions/Tests/Day09Tests.cs:24-31 | the example's state after turn 1: marbles and current position |
| Day09Program.ExamplePlace2 | Solutions/Tests/Day09Tests.cs:34-41 | the circle after turn 2 of the example, as a list insertion |
| Day09Program.ExampleNext2 | Solutions/Tests/Day09Tests.cs:34-41 | turn 2 of the example from the state after turn 1 |
| Day09Program.ExampleTurn2 | Solutions/Tests/Day09Tests.cs:34-41 | the example's state after turn 2: marbles and current position |
| Day09Program.ExamplePlace3 | Solutions/Tests/Day09Tests.cs:44-51 | the circle after turn 3 of the example, as a list insertion |
| Day09Program.ExampleNext3 | Solutions/Tests/Day09Tests.cs:44-51 | turn 3 of the example from the state after turn 2 |
| Day09Program.ExampleTurn3 | Solutions/Tests/Day09Tests.cs:44-51 | the example's state after turn 3: marbles and current position |
| Day09Program.ExamplePlace4 | Solutions/Tests/Day09Tests.cs:54-61 | the circle after turn 4 of the example, as a list insertion |
| Day09Program.ExampleNext4 | Solutions/Tests/Day09Tests.cs:54-61 | turn 4 of the example from the state after turn 3 |
| Day09Program.ExampleTurn4 | Solutions/Tests/Day09Tests.cs:54-61 | the example's state after turn 4: marbles and current position |
| Day09Program.ExamplePlace5 | Solutions/Tests/Day09Tests.cs:64-71 | the circle after turn 5 of the example, as a list insertion |
| Day09Program.ExampleNext5 | Solutions/Tests/Day09Tests.cs:64-71 | turn 5 of the example from the state after turn 4 |
| Day09Program.ExampleTurn5 | Solutions/Tests/Day09Tests.cs:64-71 | the example's state after turn 5: marbles and current position |
| Day09Program.ExamplePlace6 | Solutions/Tests/Day09Tests.cs:74-81 | the circle after turn 6 of the example, as a list insertion |
| Day09Program.ExampleNext6 | Solutions/Tests/Day09Tests.cs:74-81 | turn 6 of the example from the state after turn 5 |
| Day09Program.ExampleTurn6 | Solutions/Tests/Day09Tests.cs:74-81 | the example's state after turn 6: marbles and current position |
| Day09Program.ExamplePlace7 | Solutions/Tests/Day09Tests.cs:84-91 | the circle after turn 7 of the example, as a list insertion |
| Day09Program.ExampleNext7 | Solutions/Tests/Day09Tests.cs:84-91 | turn 7 of the example from the state after turn 6 |
| Day09Program.ExampleTurn7 | Solutions/Tests/Day09Tests.cs:84-91 | the example's state after turn 7: marbles and current position |
| Day09Program.ExamplePlace8 | Solutions/Tests/Day09Tests.cs:94-101 | the circle after turn 8 of the example, as a list insertion |
| Day09Program.ExampleNext8 | Solutions/Tests/Day09Tests.cs:94-101 | turn 8 of the example from the state after turn 7 |
| Day09Program.ExampleTurn8 | Solutions/Tests/Day09Tests.cs:94-101 | the example's state after turn 8: marbles and current position |
| Day09Program.ExamplePlace9 | Solutions/Tests/Day09Tests.cs:104-111 | the circle after turn 9 of the example, as a list insertion |
| Day09Program.ExampleNext9 | Solutions/Tests/Day09Tests.cs:104-111 | turn 9 of the example from the state after turn 8 |
| Day09Program.ExampleTurn9 | Solutions/Tests/Day09Tests.cs:104-111 | the example's state after turn 9: marbles and current position |
| Day09Program.ExamplePlace10 | Solutions/Tests/Day09Tests.cs:114-121 | the circle after turn 10 of the example, as a list insertion |
| Day09Program.ExampleNext10 | Solutions/Tests/Day09Tests.cs:114-121 | turn 10 of the example from the state after turn 9 |
| Day09Program.ExampleTurn10 | Solutions/Tests/Day09Tests.cs:114-121 | the example's state after turn 10: marbles and current position |
| Day09Program.ExamplePlace11 | Solutions/Tests/Day09Tests.cs:124-131 | the circle after turn 11 of the example, as a list insertion |
| Day09Program.ExampleNext11 | Solutions/Tests/Day09Tests.cs:124-131 | turn 11 of the example from the state after turn 10 |
| Day09Program.ExampleTurn11 | Solutions/Tests/Day09Tests.cs:124-131 | the example's state after turn 11: marbles and current position |
| Day09Program.ExamplePlace12 | Solutions/Tests/Day09Tests.cs:134-141 | the circle after turn 12 of the example, as a list insertion |
| Day09Program.ExampleNext12 | Solutions/Tests/Day09Tests.cs:134-141 | turn 12 of the example from the state after turn 11 |
| Day09Program.ExampleTurn12 | Solutions/Tests/Day09Tests.cs:134-141 | the example's state after turn 12: marbles and current position |
| Day09Program.ExamplePlace13 | Solutions/Tests/Day09Tests.cs:144-151 | the circle after turn 13 of the example, as a list insertion |
| Day09Program.ExampleNext13 | Solutions/Tests/Day09Tests.cs:144-151 | turn 13 of the example from the state after turn 12 |
| Day09Program.ExampleTurn13 | Solutions/Tests/Day09Tests.cs:144-151 | the example's state after turn 13: marbles and current position |
| Day09Program.ExamplePlace14 | Solutions/Tests/Day09Tests.cs:154-161 | the circle after turn 14 of the example, as a list insertion |
| Day09Program.ExampleNext14 | Solutions/Tests/Day09Tests.cs:154-161 | turn 14 of the example from the state after turn 13 |
| Day09Program.ExampleTurn14 | Solutions/Tests/Day09Tests.cs:154-161 | the example's state after turn 14: marbles and current position |
| Day09Program.ExamplePlace15 | Solutions/Tests/Day09Tests.cs:164-171 | the circle after turn 15 of the example, as a list insertion |
| Day09Program.ExampleNext15 | Solutions/Tests/Day09Tests.cs:164-171 | turn 15 of the example from the state after turn 14 |
| Day09Program.ExampleTurn15 | Solutions/Tests/Day09Tests.cs:164-171 | the example's state after turn 15: marbles and current position |
| Day09Program.ExamplePlace16 | Solutions/Tests/Day09Tests.cs:174-181 | the circle after turn 16 of the example, as a list insertion |
| Day09Program.ExampleNext16 | Solutions/Tests/Day09Tests.cs:174-181 | turn 16 of the example from the state after turn 15 |
| Day09Program.ExampleTurn16 | Solutions/Tests/Day09Tests.cs:174-181 | the example's state after turn 16: marbles and current position |
| Day09Program.ExamplePlace17 | Solutions/Day09/GameState.cs:29-54 | the circle after turn 17 of the example, as a list insertion |
| Day09Program.ExampleNext17 | Solutions/Day09/GameState.cs:29-54 | turn 17 of the example from the state after turn 16 |
| Day09Program.ExampleTurn17 | Solutions/Day09/GameState.cs:29-54 | the example's state after turn 17: marbles and current position |
| Day09Program.ExamplePlace18 | Solutions/Day09/GameState.cs:29-54 | the circle after turn 18 of the example, as a list insertion |
| Day09Program.ExampleNext18 | Solutions/Day09/GameState.cs:29-54 | turn 18 of the example from the state after turn 17 |
| Day09Program.ExampleTurn18 | Solutions/Day09/GameState.cs:29-54 | the example's state after turn 18: marbles and current position |
| Day09Program.ExamplePlace19 | Solutions/Day09/GameState.cs:29-54 | the circle after turn 19 of the example, as a list insertion |
| Day09Program.ExampleNext19 | Solutions/Day09/GameState.cs:29-54 | turn 19 of the example from the state after turn 18 |
| Day09Program.ExampleTurn19 | Solutions/Day09/GameState.cs:29-54 | the example's state after turn 19: marbles and current position |
| Day09Program.ExamplePlace20 | Solutions/Day09/GameState.cs:29-54 | the circle after turn 20 of the example, as a list insertion |
| Day09Program.ExampleNext20 | Solutions/Day09/GameState.cs:29-54 | turn 20 of the example from the state after turn 19 |
| Day09Program.ExampleTurn20 | Solutions/Day09/GameState.cs:29-54 | the example's state after turn 20: marbles and current position |
| Day09Program.ExamplePlace21 | Solutions/Day09/GameState.cs:29-54 | the circle after turn 21 of the example, as a list insertion |
| Day09Program.ExampleNext21 | Solutions/Day09/GameState.cs:29-54 | turn 21 of the example from the state after turn 20 |
| Day09Program.ExampleTurn21 | Solutions/Day09/GameState.cs:29-54 | the example's state after turn 21: marbles and current position |
| Day09Program.ExamplePlace22 | Solutions/Tests/Day09Tests.cs:184-191 | the circle after turn 22 of the example, as a list insertion |
| Day09Program.ExampleNext22 | Solutions/Tests/Day09Tests.cs:184-191 | turn 22 of the example from the state after turn 21 |
| Day09Program.ExampleTurn22 | Solutions/Tests/Day09Tests.cs:184-191 | the example's state after turn 22: marbles and current position |
| Day09Program.ExampleTake23 | Solutions/Tests/Day09Tests.cs:194-201 | turn 23 of the example removes marble 9 from index 6 |
| Day09Program.ExampleNext23 | Solutions/Tests/Day09Tests.cs:194-201 | turn 23 of the example from the state after turn 22 |
| Day09Program.ExampleTurn23 | Solutions/Tests/Day09Tests.cs:194-201 | the example's state after turn 23: marbles and current position, and the score 32 |
| Day09Program.ExamplePlace24 | Solutions/Tests/Day09Tests.cs:204-211 | the circle after turn 24 of the example, as a list insertion |
| Day09Program.ExampleNext24 | Solutions/Tests/Day09Tests.cs:204-211 | turn 24 of the example from the state after turn 23 |
| Day09Program.ExampleTurn24 | Solutions/Tests/Day09Tests.cs:204-211 | the example's state after turn 24: marbles and current position |
| Day09Program.ExamplePlace25 | Solutions/Tests/Day09Tests.cs:214-221 | the circle after turn 25 of the example, as a list insertion |
| Day09Program.ExampleNext25 | Solutions/Tests/Day09Tests.cs:214-221 | turn 25 of the example from the state after turn 24 |
| Day09Program.ExampleTurn25 | Solutions/Tests/Day09Tests.cs:214-221 | the example's state after turn 25: marbles and current position |
| Day09Program.QuietTurn | Solutions/Tests/Day09Tests.cs:224-227 | of the first 46 turns only turn 23 scores |
| Day09Program.Part1Example | Solutions/Tests/Day09Tests.cs:224-227 | 25 turns among 9 players give a highest score of 32 |
| Day09Program.Part1ExampleAt | Solutions/Tests/Day09Tests.cs:224-227 | the same, with the counts as variables |
| Day09Program.ScoringTurn | Solutions/Tests/Day09Tests.cs:194-201 | turn 23 of the example scores 32 |
| Day09Program.QuietTurns | Solutions/Tests/Day09Tests.cs:224-227 | of the example's first 26 turns only turn 23 scores |
| Day09Program.ExampleScore | Solutions/Tests/Day09Tests.cs:194-201 | the example's turn 23 scores 32 |
| Day09Program.ExampleScores | Solutions/Tests/Day09Tests.cs:224-227 | 26 turns of which only turn 23 scores 32 leave player 5 with 32 and everyone else with 0 |
| Day09Program.ExampleMax | Solutions/Tests/Day09Tests.cs:224-227 | the highest of those scores is 32 |
| Day10Point.Next | Solutions/Day10/Point.cs:26-29 | a point moves by its velocity and keeps it |
| Day10Point.MovedClosedForm | Solutions/Day10/Point.cs:26-29 | after k seconds a point has moved k times its velocity, which it keeps |
| Day10Point.MovedAdd | Solutions/Day10/Point.cs:26-29 | moving j seconds and then k more is moving j + k seconds |
| Day10Point.MoveExample | Solutions/Tests/Day10Tests.cs:14-22 | the point at (3, 9) moving by (1, -2) is at (6, 3) after three moves |
| Day10Map.AggregateMeans | Solutions/Day10/Map.cs:14-20 | each bound of the aggregate is the extreme of the points' coordinates and the seed's bound, and is attained by one of them |
| Day10Map.NewMapMeans | Solutions/Day10/Map.cs:12-25 | the box holds every point and the origin, each bound is 0 or some point's coordinate, and width and height are its extents |
| Day10Map.NewMapSameSet | Solutions/Day10/Map.cs:14-23 | the box depends only on which points there are, not on their order or repetition |
| Day10Map.SameSetBound | Solutions/Day10/Map.cs:14-20 | the same set of points cannot give a wider box |
| Day10Program.IteratePoints | Solutions/Day10/Program.cs:110-111 | every point moved once, in order |
| Day10Program.RunAtMeans | Solutions/Day10/Program.cs:113-117 | element k of `Run` is every starting point moved for k seconds |
| Day10Program.UntilFrom | Solutions/Day10/Program.cs:129-130 | `TakeWhile` yields the points of the accumulators up to the first one that grew, and stops there unless the bound stops it first |
| Day10Program.RunUntilDivergent | Solutions/Day10/Program.cs:119-130 | the yielded states are those of the scan's accumulators that did not grow, and it stops only at one that did or at the bound |
| Day10Program.RunUntilDivergentStates | Solutions/Day10/Program.cs:119-130 | the start is yielded twice, by the seed and by the first element of `Run`, and then the later states of `Run` in order |
| Day10Program.RunUntilDivergentShrinks | Solutions/Day10/Program.cs:119-130 | along what is yielded neither the width nor the height ever grows from one state to the next |
| Day10Program.RunUntilDivergentStops | Solutions/Day10/Program.cs:119-130 | it stops before the bound only at a state of `Run` whose box is wider or taller than the state before it |
| Day10Program.ScanAtPrevious | Solutions/Day10/Program.cs:121-128 | from element 2 on, each accumulator compares a state of `Run` with the state before it |
| Day11Program.CalculatePower | Solutions/Day11/Program.cs:22-32 | the power of a cell, computed in wrapping 32-bit arithmetic with truncating division, always lies in [-14, 4] |
| Day11Program.PowerIsHundredsDigit | Solutions/Day11/Program.cs:22-32 | on the grid, with a serial number up to 6000000, nothing wraps and the power is the hundreds digit of ((x + 10) y + serial) (x + 10), minus 5 |
| Day11Program.ProductNoWrap | Solutions/Day11/Program.cs:24-27 | the rack id, its product with y, the added serial number and the product with the rack id never wrap on the grid, so they give the exact product |
| Day11Program.HundredsDigit | Solutions/Day11/Program.cs:29 | truncating (v / 100) % 10 is the hundreds digit of a non-negative v |
| Day11Program.MulAtMost | Solutions/Day11/Program.cs:25-27 | the products on the grid are bounded by the products of the bounds, which is why nothing wraps |
| Day11Program.MulAtLeast | Solutions/Day11/Program.cs:25-27 | a product with the rack id is at least the other factor, so the intermediate values stay non-negative |
| Day11Program.PowerExample1 | Solutions/Tests/Day11Tests.cs:9-13 | serial 8 gives power 4 at (3, 5) |
| Day11Program.PowerExample2 | Solutions/Tests/Day11Tests.cs:15-19 | serial 57 gives power -5 at (122, 79) |
| Day11Program.PowerExample3 | Solutions/Tests/Day11Tests.cs:21-25 | serial 39 gives power 0 at (217, 196) |
| Day11Program.PowerExample4 | Solutions/Tests/Day11Tests.cs:27-31 | serial 71 gives power 4 at (101, 153) |
| Day11Program.PowerAtIs | Solutions/Day11/Program.cs:22-32 | the reference power of a cell is `CalculatePower` and lies in [-14, 4] |
| Day11Program.RowPowerFirst | Solutions/Day11/Program.cs:39-51 | an exact row sum splits at its first cell as well as at its last |
| Day11Program.RowPowerBounds | Solutions/Day11/Program.cs:39-51 | a sum of n cells of a row lies in [-14 n, 4 n] |
| Day11Program.SummedPrefix | Solutions/Day11/Program.cs:46-50 | once the cells before x are seen, there is one result per window that ends before x |
| Day11Program.SummedPrefixAt | Solutions/Day11/Program.cs:46-50 | every result written so far is its window's exact sum wrapped to an sbyte |
| Day11Program.SummedRow | Solutions/Day11/Program.cs:34-36 | the summed row has one entry per window position, GridWidth - windowSize + 1 |
| Day11Program.WrapUpdate | Solutions/Day11/Program.cs:42-45 | sbyte subtraction then addition on wrapped values wraps the exact difference and sum |
| Day11Program.ModUnique | Solutions/Day11/Program.cs:41 | the slot x % size is fixed by any division of x by size with remainder in [0, size) |
| Day11Program.ModDistinct | Solutions/Day11/Program.cs:41 | positions fewer than size apart use different slots of the ring buffer |
| Day11Program.ModSlot | Solutions/Day11/Program.cs:41 | the slot of x is x before the buffer wraps and the slot of x - size after |
| Day11Program.RingStep | Solutions/Day11/Program.cs:41-44 | the slot of x holds the power leaving the window, and writing the power of x there gives the ring of the last size powers before x + 1 |
| Day11Program.RingContents | Solutions/Day11/Program.cs:37-44 | the ring buffer always has windowSize slots |
| Day11Program.RingContentsRing | Solutions/Day11/Program.cs:37-44 | after x writes the ring holds each of the last size powers in its slot and zero in the slots not yet reached |
| Day11Program.TotalStep | Solutions/Day11/Program.cs:42-45 | taking the leaving power out of the running total and adding the power of x gives the window ending at x, wrapped |
| Day11Program.RowCellStep | Solutions/Day11/Program.cs:41-50 | one cell keeps both the ring and the running total equal to their reference, and a full window adds its wrapped sum to the results |
| Day11Program.RollWindow | Solutions/Day11/Program.cs:41-45 | one loop iteration: the ring buffer becomes the one before x + 1 and the new total is the window ending at x, wrapped |
| Day11Program.GenerateSummedRow | Solutions/Day11/Program.cs:34-54 | entry i of the result is the sbyte-wrapped sum of the windowSize powers starting at x = i on row y |
| Day11Program.SummedRowAt | Solutions/Day11/Program.cs:34-54 | an entry of the summed row is its window's exact sum wrapped to an sbyte |
| Day11Program.ColumnPowerFirst | Solutions/Day11/Program.cs:63-80 | an exact column of row windows splits at its first row as well as at its last |
| Day11Program.ColumnStep | Solutions/Day11/Program.cs:70-71 | taking the leaving row out of a column total and adding row y gives the window of rows ending at y, wrapped |
| Day11Program.ColumnIsBlock | Solutions/Day11/Program.cs:72-76 | once the window of rows is full, a column total is the block whose top row is y - height + 1 |
| Day11Program.RowRingStep | Solutions/Day11/Program.cs:65-78 | the slot of row y holds the row leaving the window (none while filling), and storing row y gives the ring before y + 1 |
| Day11Program.RowsDoneExtend | Solutions/Day11/Program.cs:72-76 | a fully written result row extends the finished rows by one |
| Day11Program.ColumnTotals | Solutions/Day11/Program.cs:61 | there is one column total per output column |
| Day11Program.Accumulated | Solutions/Day11/Program.cs:68-79 | the inner loop keeps one total per output column |
| Day11Program.AccumulateRow | Solutions/Day11/Program.cs:68-79 | each column total takes the leaving row out and the new row in, in sbyte arithmetic; the new row is stored in its ring slot; the block row completed at y is written and nothing else in the result changes |
| Day11Program.TotalsAdvance | Solutions/Day11/Program.cs:66-79 | one row moves every column total from the window of rows ending before y to the window ending at y |
| Day11Program.ColumnAdvance | Solutions/Day11/Program.cs:70-71 | the same for one column x |
| Day11Program.ResultsAdvance | Solutions/Day11/Program.cs:72-76 | the results written from the totals of a full window complete one more block row |
| Day11Program.AdvanceGrid | Solutions/Day11/Program.cs:63-80 | one outer iteration keeps the column totals, the ring of rows and the finished block rows equal to their reference at y + 1 |
| Day11Program.GenerateSummedGrid | Solutions/Day11/Program.cs:56-82 | the result has one entry per block position, and each is the sbyte-wrapped power of the windowWidth x windowHeight block whose top-left cell it indexes |
| Day11Program.FindMax | Solutions/Day11/Program.cs:84-106 | the first cell in x-major order holding the largest value, (0, 0) for an empty grid |
| Day11Program.Row3Sum | Solutions/Day11/Program.cs:39-51 | a window of three cells is the sum of their powers |
| Day11Program.Block3Sum | Solutions/Day11/Program.cs:63-80 | a 3 x 3 block is the sum of its three row windows |
| Day11Program.Block3Bounds | Solutions/Day11/Program.cs:16-20 | a 3 x 3 block lies in [-126, 36], so the sbyte sums are exact |
| Day11Program.SolvePart1 | Solutions/Day11/Program.cs:16-20 | the top-left cell of a 3 x 3 block with the largest total power, the first such in x-major order |
| Day12Program.Dots | Solutions/Day12/Program.cs:94 | n empty pots |
| Day12Program.Pad | Solutions/Day12/Program.cs:94-95 | the pot text with PadSize empty pots on each side, the original pots in the middle |
| Day12Program.Buffer | Solutions/Day12/Program.cs:97 | one buffer per element of the input, as the buffers of size 5 and skip 1 are |
| Day12Program.Step | Solutions/Day12/Program.cs:90-101 | the next padded generation is PadSize pots longer than the text and holds '#' at i exactly when the five pots of the padded text starting at i are a rule producing a pot, '.' otherwise |
| Day12Program.SelectWindows | Solutions/Day12/Program.cs:97-100 | the buffers of full rule length are exactly the windows starting at the first \|xs\| - 4 positions, each mapped in order to '#' or '.' by the rule set |
| Day12Program.ShortBuffers | Solutions/Day12/Program.cs:97-100 | an input shorter than a rule yields no pots |
| Day12Program.LeadingDots | Solutions/Day12/Program.cs:114 | the count of leading empty pots: all pots before it are empty and the pot at it, if any, is not |
| Day12Program.DotsFrom | Solutions/Day12/Program.cs:114 | the end of the run of empty pots from i: all pots in between are empty and the one at it, if any, is not |
| Day12Program.KeptLength | Solutions/Day12/Program.cs:115 | the length of a prefix without its trailing empty pots: the rest is empty and the last kept pot is not |
| Day12Program.TrimEnd | Solutions/Day12/Program.cs:115 | a prefix of the text that does not end with an empty pot and after which the text holds only empty pots |
| Day12Program.RuleSet | Solutions/Day12/Program.cs:107 | the set holds exactly the rules of the array |
| Day12Program.Neighbourhood | Solutions/Day12/Program.cs:19 | the neighbourhood of a pot is five pots long, a rule's length |
| Day12Program.WindowIsNeighbourhood | Solutions/Day12/Program.cs:94-100 | window i of the padded text is the neighbourhood of pot leftIndex + i - 2 of the infinite row |
| Day12Program.NextTrimmed | Solutions/Day12/Program.cs:113-117 | a generation of `Run` is made of '#' and '.' and has a plant at each end, or is empty |
| Day12Program.StripAlive | Solutions/Day12/Program.cs:114-117 | stripping the empty pots on both ends and moving the left index by the stripped count keeps every live pot of the row at its number |
| Day12Program.StripAliveAt | Solutions/Day12/Program.cs:114-117 | the same for any split into leading empty pots, a kept middle and trailing empty pots |
| Day12Program.FarNeighbourhood | Solutions/Day12/Program.cs:21-25 | a pot whose neighbourhood lies wholly outside the text sees five empty pots |
| Day12Program.NextAlive | Solutions/Day12/Program.cs:103-120 | with no rule for five empty pots, a pot of the infinite row holds a plant in the next generation exactly when its neighbourhood is a rule producing a pot |
| Day12Program.GenerationAlive | Solutions/Day12/Program.cs:103-120 | the same holds for every step of the sequence `Run` generates from a well-formed initial state |
| Day12Program.SolvePart1IsLiveSum | Solutions/Day12/Program.cs:122-132 | the answer is the sum of the numbers of the live pots after the given number of generations, over any range covering the state's text |
| Day12Program.ScoreIsLiveSum | Solutions/Day12/Program.cs:128-131 | the score of a well-formed state is that sum of live pot numbers and does not depend on empty pots around the text |
| Day12Program.LiveSumEmpty | Solutions/Day12/Program.cs:128-131 | a range with no live pot scores 0 |
| Day12Program.LiveSumSame | Solutions/Day12/Program.cs:128-131 | two states with the same live pots over a range score the same over it |
| Day13CartState.Ordinal | Solutions/Day13/CartState.cs:80 | a direction's number lies in [0, 4) |
| Day13CartState.FromOrdinal | Solutions/Day13/CartState.cs:80 | the cast back to a direction is the inverse of the direction's number |
| Day13CartState.MoveSteps | Solutions/Day13/CartState.cs:87-100 | a cart that moves goes exactly one cell, in the direction it ends up facing |
| Day13CartState.MoveStraight | Solutions/Day13/CartState.cs:33-55 | a straight track keeps a cart running along it going the same way and throws `InvalidOperationException` for a cart that would cross it |
| Day13CartState.MoveFails | Solutions/Day13/CartState.cs:25-101 | a move fails exactly on an empty cell (`ArgumentOutOfRangeException`) or when crossing a straight track; curves and intersections accept every direction |
| Day13CartState.CurveReversible | Solutions/Day13/CartState.cs:57-75 | a cart running back out of a curve the way another left it comes out reversed, and curves do not count as intersections |
| Day13CartState.IntersectionTurns | Solutions/Day13/CartState.cs:77-81 | the k-th intersection turns the cart left, straight or right as k mod 3 is 0, 1 or 2, and counts one more intersection |
| Day13CartState.ThreeIntersections | Solutions/Day13/CartState.cs:77-81 | three intersections in a row leave the cart facing the way it came in, with three more counted |
| Day13CartState.IntersectionExamples | Solutions/Tests/Day13Tests.cs:238-271 | the intersection cases: from (2, 2) facing each way after 0, 1 or 2 mod 3 intersections the cart turns left, goes straight or turns right and moves one cell |
| Day13Map.GetStored | Solutions/Day13/Map.cs:21-23 | a stored position reads back its track, any other reads as empty, and the map's size is not consulted |
| Day13Program.ReceiveCell | Solutions/Day13/Program.cs:107-112 | storing a cell at the cursor adds a new position, steps right and keeps the width at the furthest column reached, and the receiver stays consistent |
| Day13Program.ReceiveCart | Solutions/Day13/Program.cs:86-105 | a cart is recorded at the cursor and its straight track stored under it, keeping every cart on its track |
| Day13Program.ReceiveNewLine | Solutions/Day13/Program.cs:114-119 | a line ending moves the cursor to the start of the next line and sets the height to it |
| Day13Program.Receive | Solutions/Day13/Program.cs:33-36 | each callback keeps the receiver consistent |
| Day13Program.Received | Solutions/Day13/Program.cs:62-64 | the receiver after all callbacks is consistent: cells before the cursor, each cart on its track |
| Day13Program.MapReceiver.constructor | Solutions/Day13/Program.cs:73-84 | a new receiver has its cursor at (0, 0), no cells, no carts and size 0 x 0 |
| Day13Program.MapReceiver.Cell | Solutions/Day13/Program.cs:107-112 | the receiver's state becomes `ReceiveCell` of the old one |
| Day13Program.MapReceiver.Cart | Solutions/Day13/Program.cs:86-105 | the receiver's state becomes `ReceiveCart` of the old one |
| Day13Program.MapReceiver.NewLine | Solutions/Day13/Program.cs:114-119 | the receiver's state becomes `ReceiveNewLine` of the old one |
| Day13Program.MapReceiver.Act | Solutions/Day13/Program.cs:33-36 | running a parsed callback performs the corresponding receiver operation |
| Day13Program.LoadMap | Solutions/Day13/Program.cs:60-71 | a text that parses gives the state built from the receiver after every callback in order; a text that does not gives nothing |
| Day13Program.ReceivedMeaning | Solutions/Day13/Program.cs:73-119 | after the callbacks the cursor is at the column and line of the next character, the height is the number of line endings and the carts are those of the input in order |
| Day13Program.CartsOnTrack | Solutions/Day13/Program.cs:86-105 | every cart of a loaded map stands on the straight track its letter stands for, so its first move succeeds and keeps its direction |
| Day13Program.TickShift | Solutions/Day13/Program.cs:43-49 | after a tick that succeeds, the following ticks are those of the state it produced |
| Day13Program.FirstCollisionMeaning | Solutions/Day13/Program.cs:43-51 | the search finds p exactly when some tick within the bound is the first with a collision and p is that tick's first collision |
| Day13Program.SolvePart1 | Solutions/Day13/Program.cs:43-51 | the answer is the first collision of the loaded map, as `FirstCollision` defines it |
| Day13Program.SimpleCollision | Solutions/Tests/Day13Tests.cs:273-305 | the two carts on a vertical track step to (0, 2) and (0, 4) without a collision, then both reach (0, 3), the one collision |
| Day13State.UpdateStep | Solutions/Day13/State.cs:28-36 | one step of the aggregate succeeds exactly when cart `i` can move; it replaces that cart with its moved self and leaves the others and the length alone |
| Day13State.MovedAll | Solutions/Day13/State.cs:28-30 | every cart moved from where it started the tick keeps the list's length |
| Day13State.UpdateMeaning | Solutions/Day13/State.cs:20-41 | a tick succeeds exactly when every cart can move; then it moves every cart once from where it started, keeps the order and the map, and records a collision exactly for each cart arriving where a cart of the partly updated list is; otherwise it fails with the first stuck cart's error |
| Day13State.FirstFailure | Solutions/Day13/State.cs:22-37 | among the carts that cannot move there is a first one |
| Day13State.UpdateFromMoves | Solutions/Day13/State.cs:22-37 | from any step of the aggregate with the list and collisions as the reference says, it ends with every cart moved and every collision recorded |
| Day13State.UpdateFromFails | Solutions/Day13/State.cs:22-37 | the aggregate fails with the first stuck cart's error from any earlier step |
| Day13State.HitIsOther | Solutions/Day13/State.cs:34 | a cart never collides with itself: it always leaves its cell, so a hit is with another cart |
| Day14Program.SignificantDigits | Solutions/Day14/Program.cs:69-73 | the decimal digits of a positive number, each below 10, with no leading zero; none for 0 |
| Day14Program.Digits | Solutions/Day14/Program.cs:64-73 | a round adds at least one recipe, each a digit, and a leading 0 only for a total of 0 |
| Day14Program.Pow10 | Solutions/Day14/Program.cs:67 | every power of ten is at least 1 |
| Day14Program.DigitCount | Solutions/Day14/Program.cs:67 | the digit count is at least 1 |
| Day14Program.DigitsValue | Solutions/Day14/Program.cs:64-73 | reading a round's recipes back as a number gives the total |
| Day14Program.SignificantDigitsValue | Solutions/Day14/Program.cs:69-73 | reading the digits of n back gives n |
| Day14Program.ValueDigits | Solutions/Day14/Program.cs:64-73 | digits without a leading zero (or a lone 0) are the recipes of the number they spell, so the recipes of a total are unique |
| Day14Program.ValueSignificant | Solutions/Day14/Program.cs:69-73 | digits without a leading zero are the digits of the number they spell, which is positive when there are any |
| Day14Program.DigitCountIsLog | Solutions/Day14/Program.cs:67 | 1 + floor(log10(max(1, total))) is the number of recipes the loop writes: 10^(k-1) <= max(1, total) < 10^k |
| Day14Program.TotalBound | Solutions/Day14/Program.cs:64 | the elves' total is between 0 and 9 per elf |
| Day14Program.Round | Solutions/Day14/Program.cs:59-90 | a round keeps every score a digit and every elf on a recipe, keeps the recipes already made and adds at least one |
| Day14Program.Start | Solutions/Day14/Program.cs:40-44 | the starting board, 3 and 7 with an elf on each, is valid |
| Day14Program.Fill | Solutions/Day14/Program.cs:45-55 | the first length recipes of the boards grown from b are length digits |
| Day14Program.FillMeaning | Solutions/Day14/Program.cs:45-55 | building from b keeps the recipes b already has |
| Day14Program.FillPrefix | Solutions/Day14/Program.cs:45-55 | asking for fewer recipes gives a prefix of asking for more: a recipe's score does not depend on how far the board is built |
| Day14Program.Scoreboard | Solutions/Day14/Program.cs:36-57 | the scoreboard of a given length has that many recipes, each a digit |
| Day14Program.ScoreboardMeaning | Solutions/Day14/Program.cs:36-57 | the scoreboard starts 3, 7 and every shorter scoreboard is a prefix of it |
| Day14Program.TwoElvesAddAtMostTwo | Solutions/Day14/Program.cs:64-73 | with two elves a round adds one or two recipes |
| Day14Program.RoundOfTwo | Solutions/Day14/Program.cs:64-87 | a round with two elves appends the digits of their two scores' sum and moves each elf on by one more than its score, round the grown board |
| Day14Program.SmallDigits | Solutions/Day14/Program.cs:69-73 | a sum below 10 is one recipe; 10 to 18 are two, the first a 1 |
| Day14Program.GetNewRecipesExample1 | Solutions/Tests/Day14Tests.cs:14-24 | elves on 3 and 7 make 1, 0 and stay at 0 and 1 |
| Day14Program.GetNewRecipesExample2 | Solutions/Tests/Day14Tests.cs:26-36 | on 3, 7, 1, 0 the same elves make 1, 0 and move to 4 and 3 |
| Day14Program.GetNewRecipesExample3 | Solutions/Tests/Day14Tests.cs:38-47 | elves on 1 and 0 make a 1 and move to 6 and 4 |
| Day14Program.GetNewRecipesExample4 | Solutions/Tests/Day14Tests.cs:49-58 | elves on 1 and 1 make a 2 and move to 0 and 6 |
| Day14Program.DigitArrays.constructor | Solutions/Day14/Program.cs:94 | ten fresh buffers, the i-th of length i + 1 |
| Day14Program.GetNewRecipes | Solutions/Day14/Program.cs:59-90 | returns the buffer holding exactly the digits of the elves' total, and the same positions array with each elf moved on round the grown board; the other buffers are untouched |
| Day14Program.WriteDigits | Solutions/Day14/Program.cs:69-73 | the loop fills a buffer of exactly the digit count with the total's digits, most significant first, and stops after writing them all |
| Day14Program.MovePositions | Solutions/Day14/Program.cs:82-87 | every elf moves in place one more than its score, modulo the new board size |
| Day14Program.DigitsBelow | Solutions/Day14/Program.cs:94 | a total below 10^10 has at most ten digits, so one of the ten buffers fits it |
| Day14Program.WriteDigit | Solutions/Day14/Program.cs:71-72 | one pass writes the least significant digit still to write just in front of those already written |
| Day14Program.ReadsOnlyPositions | Solutions/Day14/Program.cs:64-86 | the total and the moves read only the recipes under the elves, not what lies beyond those already made |
| Day14Program.GenerateScoreboard | Solutions/Day14/Program.cs:36-57 | a fresh array holding exactly the first length recipe scores |
| Day14Program.AddRound | Solutions/Day14/Program.cs:47-54 | one pass of the loop copies a round's recipes in, up to the end of the array, and moves the elves |
| Day14Program.RoundFill | Solutions/Day14/Program.cs:45-55 | after a round the answer asked for is unchanged, and a round that fills the array completes it |
| Day14Program.CopyRecipes | Solutions/Day14/Program.cs:48-52 | the new recipes go in after those already there, as many as fit |
| Day14Program.ToText | Solutions/Day14/Program.cs:24 | one character per score |
| Day14Program.IndexFrom | Solutions/Day14/Program.cs:33 | the first index from `from` on where the pattern occurs, or -1 when there is none |
| Day14Program.SolvePart1 | Solutions/Day14/Program.cs:20-25 | the ten scores after the first count recipes, as text |
| Day14Program.SolvePart1Stable | Solutions/Day14/Program.cs:20-25 | the answer is ten digits and is the same whatever longer scoreboard it is read from |
| Day14Program.SolvePart2 | Solutions/Day14/Program.cs:27-34 | the first index at which the pattern occurs among the first n + \|pattern\| scores, or -1 |
| Day14Program.SolvePart2Stable | Solutions/Day14/Program.cs:27-34 | an occurrence found is where the pattern first occurs on every longer scoreboard too |
| Day14Program.ToTextPrefix | Solutions/Day14/Program.cs:29-31 | the text of a prefix of the scores is the prefix of their text |
| Day14Program.IndexOfPrefix | Solutions/Day14/Program.cs:33 | an occurrence that is first in a prefix is first in the whole text |
| Day14Program.IndexFirst | Solutions/Day14/Program.cs:33 | a first occurrence at r is what `IndexOf` returns |
| Day15GridPair.For | Solutions/Day15/GridPair.cs:15-20 | the pair keeps the grid as primary and allocates a new secondary grid of the same height and width |
| Day15GridPair.Swap | Solutions/Day15/GridPair.cs:25-28 | the roles of the two grids are exchanged |
| Day15GridPair.SwapTwice | Solutions/Day15/GridPair.cs:25-28 | swapping twice gives back the original pair |
| Day15GridCell.FactoriesMeans | Solutions/Day15/GridCell.cs:75-95 | `Empty`, `Wall`, `Goblin` and `Elf` build well-formed cells of exactly their kind with no closeness annotation; a unit carries its own id and none of the other faction |
| Day15GridCell.WithDistanceToElfInRange | Solutions/Day15/GridCell.cs:118-134 | fails (`InvalidOperationException`) exactly on a wall or an elf; otherwise a copy with the given elf distance, id and in-range position and the goblin side and kind untouched |
| Day15GridCell.WithDistanceToGoblinInRange | Solutions/Day15/GridCell.cs:145-161 | fails exactly on a wall or a goblin; otherwise a copy with the given goblin distance, id and in-range position and the elf side and kind untouched |
| Day15GridCell.WithDistanceTo | Solutions/Day15/GridCell.cs:118-161 | the two annotation methods seen per faction: fails exactly on a wall or a unit of that faction, and otherwise sets only that faction's fields |
| Day15GridCell.WithDistanceToWellFormed | Solutions/Day15/GridCell.cs:118-161 | annotating a well-formed cell that lacks the faction's annotation, with a distance of at least 1, succeeds and keeps it well formed |
| Day15GridOperations.GridEquality | Solutions/Day15/GridOperations.cs:96-101 | two grids of the same shape are equal exactly when they agree at every position |
| Day15GridOperations.Snapshot | Solutions/Day15/GridOperations.cs:99-100 | the value of a grid array has its height and width and its cell at every position |
| Day15GridOperations.NeighboursInGrid | Solutions/Day15/GridOperations.cs:263-269 | the four neighbours of an interior cell lie in the grid |
| Day15GridOperations.KeyOrder | Solutions/Day15/GridOperations.cs:276 | the sort key order (rank, then two positions in reading order) is a strict total order |
| Day15GridOperations.BestIndex | Solutions/Day15/GridOperations.cs:270-278 | `OrderBy` then `FirstOrDefault`: nothing exactly when no candidate has a key; otherwise the first candidate whose key is the smallest |
| Day15GridOperations.NeighbourKeys | Solutions/Day15/GridOperations.cs:263-273 | one key per neighbour, in the order West, East, North, South |
| Day15GridOperations.FindBestIndex | Solutions/Day15/GridOperations.cs:254-279 | nothing exactly when no neighbour is ranked; otherwise a ranked neighbour with the smallest key, the first such in West, East, North, South order |
| Day15GridOperations.FindBest | Solutions/Day15/GridOperations.cs:254-279 | the chosen neighbour's cell and position, or nothing exactly when no neighbour is ranked |
| Day15GridOperations.ClosenessKeyPresent | Solutions/Day15/GridOperations.cs:167-182 | for a well-formed neighbour the `FindNearest` key is present exactly when its rank is, with that rank |
| Day15GridOperations.Annotate | Solutions/Day15/GridOperations.cs:119-135 | the cell takes the chosen neighbour's distance plus one (1 from a unit), its id, and its in-range position (the cell itself from a unit); its kind and the other faction's fields are kept and it stays well formed |
| Day15GridOperations.FindNearestRanked | Solutions/Day15/GridOperations.cs:167-182 | the neighbour `FindNearest` picks is ranked and well formed |
| Day15GridOperations.AnnotateFrom | Solutions/Day15/GridOperations.cs:112-165 | one faction's part of the sweep: unchanged when no neighbour is ranked, otherwise the annotation from the chosen neighbour, with the kind and the other faction kept |
| Day15GridOperations.Step | Solutions/Day15/GridOperations.cs:96-190 | one sweep keeps the grid's shape and gives each cell its swept value |
| Day15GridOperations.StepCellFor | Solutions/Day15/GridOperations.cs:106-185 | in a sweep a wall, a unit of the faction or an already annotated cell keeps that faction's fields, and a cell needing an annotation gets one exactly when `FindNearest` finds a neighbour, from that neighbour |
| Day15GridOperations.StepValid | Solutions/Day15/GridOperations.cs:96-190 | walls, units and ids survive a sweep and every cell stays well formed |
| Day15GridOperations.SameLayoutTransitive | Solutions/Day15/GridOperations.cs:85-94 | keeping walls and units is transitive across sweeps |
| Day15GridOperations.StepCellWeight | Solutions/Day15/GridOperations.cs:106-185 | a sweep never removes an annotation, and a cell it changes gains one |
| Day15GridOperations.RowMissingMono | Solutions/Day15/GridOperations.cs:102-187 | cell-by-cell fewer missing annotations give fewer in the row, strictly fewer if any cell has strictly fewer |
| Day15GridOperations.MissingMono | Solutions/Day15/GridOperations.cs:102-187 | the same for the whole grid |
| Day15GridOperations.StepDecreases | Solutions/Day15/GridOperations.cs:85-94 | a sweep that changes the grid lowers the number of missing annotations, so the loop ends |
| Day15GridOperations.Closeness | Solutions/Day15/GridOperations.cs:85-94 | sweeping until nothing changes ends in a fixed point of the sweep with the same walls and units |
| Day15GridOperations.ClosenessUnfold | Solutions/Day15/GridOperations.cs:85-94 | the loop stops on a grid a sweep leaves unchanged and otherwise continues from the swept grid |
| Day15GridOperations.UnitInterior | Solutions/Day15/GridOperations.cs:204-206 | on a walled map a unit is never on the wall ring, so its neighbours exist |
| Day15GridOperations.CalculateMove | Solutions/Day15/GridOperations.cs:204-225 | an error outside the grid or without a unit there (`ArgumentException`); otherwise no step, or a unit step to an open neighbour with a distance to the enemy |
| Day15GridOperations.CalculateMoveMeans | Solutions/Day15/GridOperations.cs:204-225 | no step exactly when the unit's enemy distance is absent or at most 1 or no open neighbour has one; otherwise the step to the neighbour with the smallest enemy distance, then in-range cell in reading order, then neighbour in reading order |
| Day15GridOperations.MoveKeyPresent | Solutions/Day15/GridOperations.cs:220-222 | a neighbour is a move candidate exactly when it is not a unit and has a distance to the enemy, which is its rank |
| Day15GridOperations.ChangedAboveAll | Solutions/Day15/GridOperations.cs:98-189 | the changed flag over all rows is set exactly when the sweep changes the grid |
| Day15GridOperations.ProcessCell | Solutions/Day15/GridOperations.cs:106-185 | the loop body computes the swept cell and reports a change exactly when it differs from the old one |
| Day15GridOperations.CalculateCloseness | Solutions/Day15/GridOperations.cs:85-94 | a fresh grid of the same size holding the fixed point `Closeness` of the argument, which is not written to |
| Day15GridOperations.CalculateClosenessOfPair | Solutions/Day15/GridOperations.cs:85-94 | the primary grid of the pair ends up holding the converged closeness data |
| Day15GridOperations.CopyGrid | Solutions/Day15/GridOperations.cs:85-94 | the destination ends up holding every cell of the source |
| Day15GridOperations.ProcessOneClosenessStep | Solutions/Day15/GridOperations.cs:96-190 | a fresh grid holding one sweep of the last one, built in reading order, and changed exactly when the sweep changed something |
| Day15GridOperations.ProcessRow | Solutions/Day15/GridOperations.cs:104-186 | the inner loop gives row y of the swept grid, and whether it differs from the old row |
| Day15GridOperations.CopyRow | Solutions/Day15/GridOperations.cs:185 | row y of the array takes the swept row and the other rows are untouched |
| Day15Closeness.ReachMonotone | Solutions/Day15/GridOperations.cs:85-94 | a path of at most k steps is one of at most m >= k steps |
| Day15Closeness.InvStart | Solutions/Day15/GridOperations.cs:85-94 | before any sweep nothing is annotated and no path has length 0 |
| Day15Closeness.ViaHasKey | Solutions/Day15/GridOperations.cs:167-182 | a neighbour that starts a path of at most r steps is ranked, below r |
| Day15Closeness.AnnotatedBelow | Solutions/Day15/GridOperations.cs:112-165 | a cell with a path of at most r steps is already annotated with a distance of at most r |
| Day15Closeness.InvStepNotFound | Solutions/Day15/GridOperations.cs:114-117 | a cell for which `FindNearest` finds nothing has no path of at most k + 1 steps |
| Day15Closeness.LeadsMeans | Solutions/Day15/GridCell.cs:37-69 | a path of d steps ending on an in-range cell is a path to a unit of the faction that carries the id, and its in-range cell is next to that unit and is the start cell or open floor |
| Day15Closeness.InvStepFound | Solutions/Day15/GridOperations.cs:114-135 | the neighbour `FindNearest` picks lies on a path of rank + 1 steps, no path is shorter, and the cell's path runs through that neighbour to its in-range cell and unit |
| Day15Closeness.FeedsNextToUnit | Solutions/Day15/GridOperations.cs:119-128 | a unit of the faction next to the cell makes the cell itself the in-range cell, one step from that unit |
| Day15Closeness.FeedsThrough | Solutions/Day15/GridOperations.cs:119-135 | an open neighbour's path of rank steps extends to the cell's path of rank + 1 steps to the same in-range cell and unit |
| Day15Closeness.NotShorter | Solutions/Day15/GridOperations.cs:167-182 | no path is shorter than the chosen neighbour's rank |
| Day15Closeness.InvStep | Solutions/Day15/GridOperations.cs:96-190 | a sweep turns what holds after k sweeps into what holds after k + 1 |
| Day15Closeness.InvStepCell | Solutions/Day15/GridOperations.cs:106-185 | the same, for one cell and faction |
| Day15Closeness.InvStepKept | Solutions/Day15/GridOperations.cs:108-112 | an annotation the sweep keeps stays true one sweep later |
| Day15Closeness.InvStepAdded | Solutions/Day15/GridOperations.cs:117-136 | a new annotation is true one sweep later |
| Day15Closeness.InvStepNew | Solutions/Day15/GridOperations.cs:119-135 | an annotation taken from a neighbour on a shortest path gives the shortest distance and a path of that length through the neighbour to the in-range cell and the unit whose id it copies |
| Day15Closeness.InvFixed | Solutions/Day15/GridOperations.cs:88-91 | a fixed point of the sweep keeps its meaning for any larger bound |
| Day15Closeness.InvClosure | Solutions/Day15/GridOperations.cs:85-94 | the sweeps of the loop carry the meaning along up to its fixed point |
| Day15Closeness.ClosenessMeaning | Solutions/Day15/GridOperations.cs:85-94 | on a map without annotations, every non-wall cell ends with, for each faction it is not a unit of, the length d of a shortest path through open floor to one of that faction's units, and one such path of d steps leads through open floor to the annotated in-range cell (the cell itself or open floor), next to the unit of that faction whose id is annotated; nothing where there is no path; walls and units are unchanged |
| Day15Closeness.Converged | Solutions/Day15/GridOperations.cs:85-94 | at the fixed point every cell says what `ClosenessMeaning` states |
| Day15Closeness.ConvergedCell | Solutions/Day15/GridOperations.cs:85-94 | the same, for one cell and faction |
| Day15Closeness.ShortestFrom | Solutions/Day15/GridOperations.cs:85-94 | a distance that no shorter path undercuts is the shortest path length |
| Day15GameState.ReadingOrderSplit | Solutions/Day15/GameState.cs:19-33 | the rows before k followed by the rows from k on are the whole reading order |
| Day15GameState.VisitedInGrid | Solutions/Day15/GameState.cs:19-22 | every position the nested loops have visited lies in the grid |
| Day15GameState.UnitsVisitedStep | Solutions/Day15/GameState.cs:66-73 | visiting one more cell lists its position exactly when a unit stands there |
| Day15GameState.RegisterAllFails | Solutions/Day15/GameState.cs:19-33 | once a duplicate id makes registering fail, it fails the same way for every longer list of positions |
| Day15GameState.RegisterVisitedStep | Solutions/Day15/GameState.cs:23-31 | visiting one more cell registers its unit, if any, on top of what was registered before |
| Day15GameState.VisitedRemaining | Solutions/Day15/GameState.cs:19-22 | the visited and the remaining positions make up the whole grid in reading order |
| Day15GameState.RegisterVisitedFails | Solutions/Day15/GameState.cs:19-33 | a failure part way through is the failure of registering the whole grid |
| Day15GameState.RegisterRow | Solutions/Day15/GameState.cs:21-32 | the inner loop registers the units of row y on top of the rows above, or fails as the whole grid does |
| Day15GameState.RegisterUnits | Solutions/Day15/GameState.cs:15-33 | every elf and goblin, in reading order, is entered with 200 hit points under its id; an id seen twice in a faction makes `Add` throw, which is the failure |
| Day15GameState.Start | Solutions/Day15/GameState.cs:9-36 | the grid ends up holding its converged closeness data, and the state has its units registered with 200 hit points each and the given elf attack power, or fails on a duplicate id |
| Day15GameState.StripRow | Solutions/Day15/GameState.cs:171-188 | each cell of row y is replaced by what removing the closeness data leaves of it, the other rows untouched |
| Day15GameState.RemoveItem | Solutions/Day15/GameState.cs:165-190 | the cell at p is emptied and every cell loses its closeness data, keeping walls and units with their ids |
| Day15GameState.CollectRow | Solutions/Day15/GameState.cs:66-73 | the inner loop lists the units of row y after those of the rows above |
| Day15GameState.CollectUnits | Solutions/Day15/GameState.cs:61-74 | the positions of every elf and goblin on the map, in reading order |
| Day15GameState.SetCell | Solutions/Day15/GameState.cs:111-113 | the grid takes the cell at q and nothing else changes |
| Day15GameState.MoveUnit | Solutions/Day15/GameState.cs:105-114 | the unit is removed from p, written at q with the same faction and id, and closeness recomputed |
| Day15GameState.StrikeUnit | Solutions/Day15/GameState.cs:136-158 | the target loses the attack power from its hit points and, at 0 or below, is removed and closeness recomputed, as `Strike` says |
| Day15GameState.AttackUnit | Solutions/Day15/GameState.cs:119-159 | the attack from q is the one `Attack` defines: the chosen adjacent enemy is struck, or nothing happens |
| Day15GameState.MoveStep | Solutions/Day15/GameState.cs:102-116 | the unit moves by the step `CalculateMove` gives, if any, and the position it stands on afterwards is returned |
| Day15GameState.ActSteps | Solutions/Day15/GameState.cs:101-159 | acting is the move, as a grid, then the attack from where the unit stands |
| Day15GameState.ActUnit | Solutions/Day15/GameState.cs:101-159 | the unit at p moves if it should and then attacks, as `Act` defines |
| Day15GameState.PlayTurn | Solutions/Day15/GameState.cs:81-159 | one pass of the loop skips a cell no unit stands on, ends the combat when the unit's enemies have no hit points left, and otherwise acts, as `Turn` defines |
| Day15GameState.RoundFromAt | Solutions/Day15/GameState.cs:79-160 | the turns from the i-th listed position are that turn, then the rest unless it ended the combat |
| Day15GameState.PlayTurns | Solutions/Day15/GameState.cs:79-160 | the second loop plays the turns of the listed units in order until one ends the combat |
| Day15GameState.PlayRound | Solutions/Day15/GameState.cs:57-163 | the grid pair is updated in place, and the new state and the combat-ended flag are those of `Round` on the old battle; the attack power is kept |
| Day15Battle.RowPositions | Solutions/Day15/GameState.cs:66-73 | row y is visited left to right, one position per column |
| Day15Battle.ReadingOrderMeans | Solutions/Day15/GameState.cs:64-74 | the nested loops visit every position of the grid, each once, in strictly increasing reading order |
| Day15Battle.UnitsAmongMeans | Solutions/Day15/GameState.cs:68-72 | filtering keeps exactly the positions holding a unit, in their order |
| Day15Battle.AllPositions | Solutions/Day15/GameState.cs:19-22 | the loops visit exactly the positions of the grid |
| Day15Battle.UnitsMeans | Solutions/Day15/GameState.cs:61-74 | turns go to exactly the units on the map at the start of the round, each once, in reading order |
| Day15Battle.With | Solutions/Day15/GameState.cs:141-151 | replacing one faction's hit points leaves the other faction's untouched |
| Day15Battle.RegisterAllMeans | Solutions/Day15/GameState.cs:19-33 | registering succeeds exactly when no two units of a faction share an id, and then each faction holds exactly the ids of its units, each at 200 |
| Day15Battle.IdsAtSnoc | Solutions/Day15/GameState.cs:23-31 | one more position adds the id of the unit there, if any |
| Day15Battle.DistinctSnoc | Solutions/Day15/GameState.cs:23-31 | one more position keeps the ids distinct exactly when its unit, if any, has a new id |
| Day15Battle.RegisterStep | Solutions/Day15/GameState.cs:24-31 | `Add` succeeds after a successful prefix exactly when the unit there, if any, has an id not seen before |
| Day15Battle.RegisterStepRegisters | Solutions/Day15/GameState.cs:24-31 | and then it registers that unit with 200 hit points |
| Day15Battle.Removed | Solutions/Day15/GameState.cs:165-190 | the grid keeps its shape, the cell at p becomes empty and every other cell is stripped of its closeness data |
| Day15Battle.RemovedMeans | Solutions/Day15/GameState.cs:165-190 | removal empties the cell, keeps every other wall and unit with its id and drops all closeness data; removing a unit from a valid grid leaves a valid grid |
| Day15Battle.ValidHasIds | Solutions/Day15/GameState.cs:174-187 | every cell of a valid grid is a wall, a unit carrying its id, or floor, so `ElfId.Value` and `GoblinId.Value` never fail |
| Day15Battle.Place | Solutions/Day15/GameState.cs:111-113 | the grid with one cell written and every other cell kept |
| Day15Battle.UnitCell | Solutions/Day15/GameState.cs:111-113 | `GridCell.Elf(id)` and `GridCell.Goblin(id)` are well-formed bare units of their faction with that id |
| Day15Battle.PlaceValid | Solutions/Day15/GameState.cs:111-113 | writing a well-formed non-wall cell inside the outer wall keeps the grid valid |
| Day15Battle.ConsistentLayout | Solutions/Day15/GameState.cs:114 | recomputing closeness keeps the battle consistent: only walls, units and ids matter |
| Day15Battle.RemovedConsistent | Solutions/Day15/GameState.cs:108 | removing the cell at p keeps the battle consistent and takes a removed unit's id off the map |
| Day15Battle.UpdateConsistent | Solutions/Day15/GameState.cs:141-151 | setting an id's hit points keeps the battle consistent when they stay above 0 or the unit has left the map |
| Day15Battle.PlaceConsistent | Solutions/Day15/GameState.cs:111-113 | writing a living unit whose id is not on the map into an open cell keeps the battle consistent |
| Day15Battle.Destination | Solutions/Day15/GameState.cs:102-110 | the step `CalculateMove` gives leads to an open cell of the map |
| Day15Battle.MovedGrid | Solutions/Day15/GameState.cs:105-114 | the grid after a move is valid and of the same size |
| Day15Battle.Moved | Solutions/Day15/GameState.cs:105-115 | a move keeps the battle consistent and the hit points, and puts the same unit, with its id, at q |
| Day15Battle.AttackTarget | Solutions/Day15/GameState.cs:120-133 | an attack target, if any, is an enemy unit of the map |
| Day15Battle.Attack | Solutions/Day15/GameState.cs:119-159 | an attack keeps the battle consistent and the grid's size |
| Day15Battle.Strike | Solutions/Day15/GameState.cs:136-158 | a strike keeps the battle consistent and the grid's size |
| Day15Battle.Act | Solutions/Day15/GameState.cs:101-159 | a unit's move and attack keep the battle consistent |
| Day15Battle.Turn | Solutions/Day15/GameState.cs:81-159 | a turn keeps the battle consistent |
| Day15Battle.RoundFrom | Solutions/Day15/GameState.cs:79-160 | the turns of a round keep the battle consistent |
| Day15Battle.Round | Solutions/Day15/GameState.cs:57-163 | a round keeps the battle consistent |
| Day15Battle.TargetKeyMeans | Solutions/Day15/GameState.cs:124-132 | a neighbour is an attack candidate exactly when a living enemy stands there, ranked by its hit points, then its position |
| Day15Battle.AttackChoice | Solutions/Day15/GameState.cs:120-134 | a unit attacks exactly when a living enemy is next to it, and attacks a neighbour |
| Day15Battle.AttackChoiceBest | Solutions/Day15/GameState.cs:120-134 | the target is the adjacent living enemy with the fewest hit points, the first in reading order among those tied |
| Day15Battle.NotBefore | Solutions/Day15/GameState.cs:133 | attack keys order by hit points, then by reading order |
| Day15Battle.NeighbourTargetKeys | Solutions/Day15/GridOperations.cs:263-273 | the attack keys of the four neighbours of q |
| Day15Battle.StrikeMeans | Solutions/Day15/GameState.cs:136-158 | a strike takes the attack power from its target and nothing from anyone else, and the target leaves the map exactly when its hit points drop to 0 or below |
| Day15Battle.LayoutOnMap | Solutions/Day15/GameState.cs:114 | grids with the same layout hold the same units |
| Day15Battle.RemovedOnMap | Solutions/Day15/GameState.cs:165-190 | removing the unit at p takes exactly its id off the map |
| Day15Battle.PlaceOnMap | Solutions/Day15/GameState.cs:111-113 | writing a unit into an open cell puts exactly its id on the map |
| Day15Battle.MovedOnMap | Solutions/Day15/GameState.cs:105-115 | a move keeps the same units on the map |
| Day15Battle.TurnOnMap | Solutions/Day15/GameState.cs:81-159 | units only ever leave the map during a turn |
| Day15Battle.ActOnMap | Solutions/Day15/GameState.cs:101-159 | the same for a unit's move and attack |
| Day15Battle.AttackOnMap | Solutions/Day15/GameState.cs:119-159 | an attack takes at most its target off the map |
| Day15Battle.TurnHitPoints | Solutions/Day15/GameState.cs:81-159 | hit points change only by the attack: not where no unit stands or when the turn ends the combat, otherwise one living enemy loses the unit's power |
| Day15Battle.AttackHitPoints | Solutions/Day15/GameState.cs:134-159 | an attack is one strike or nothing |
| Day15Battle.OneHitNoGain | Solutions/Day15/GameState.cs:136-152 | a strike with a non-negative power gives no unit hit points |
| Day15Battle.NoGainTransitive | Solutions/Day15/GameState.cs:79-160 | no gain over each turn is no gain over several |
| Day15Battle.RoundHitPoints | Solutions/Day15/GameState.cs:79-160 | over a round no unit gains hit points and no entry appears or disappears, when the elf attack power is not negative |
| Day15Battle.NoGainRefl | Solutions/Day15/GameState.cs:79-160 | a turn that changes nothing gains nothing |
| Day15Battle.RoundOnMap | Solutions/Day15/GameState.cs:79-160 | no unit joins the map during a round |
| Day15Battle.RoundEnds | Solutions/Day15/GameState.cs:90-95 | a round that ends the combat leaves one faction without a unit whose hit points are above 0 |
| Day15Battle.StartConsistent | Solutions/Day15/GameState.cs:9-36 | on a valid map registering succeeds exactly when no two units of a faction share an id, and then every unit on the map, and nothing else, has 200 hit points, so the battle starts consistent |
| Day15Battle.DistinctUnique | Solutions/Day15/GameState.cs:19-33 | distinct ids along the reading order means no two units of a faction share an id |
| Day15Battle.DistinctToUnique | Solutions/Day15/GameState.cs:19-33 | one direction of `DistinctUnique` |
| Day15Battle.UniqueToDistinct | Solutions/Day15/GameState.cs:19-33 | the other direction of `DistinctUnique` |
| Day15Battle.IdsAtOnMap | Solutions/Day15/GameState.cs:19-33 | the ids registered for a faction are those of its units on the map |
| Day15Program.SomeEntry | Solutions/Day15/Program.cs:155-158 | a non-empty dictionary has an entry to take first |
| Day15Program.SumPositiveRemove | Solutions/Day15/Program.cs:155-158 | any entry may be taken first: the sum does not depend on the order the dictionary is enumerated in |
| Day15Program.SumPositiveZero | Solutions/Day15/Program.cs:155-158 | the sum of the hit points above 0 is never negative, and is 0 exactly when no unit has hit points above 0 |
| Day15Program.SumOfPositive | Solutions/Day15/Program.cs:155-158 | the loop sums the hit points above 0, whatever order it takes the keys in |
| Day15Program.Fight | Solutions/Day15/Program.cs:144-152 | a fight that ends leaves a consistent battle and counts at least one more round |
| Day15Program.FightEnds | Solutions/Day15/Program.cs:144-152 | when the fight is over one side has no unit with hit points above 0 |
| Day15Program.OutcomeMeans | Solutions/Day15/Program.cs:154-159 | scoring a finished battle after at least one round gives at least 0, and a total elf victory leaves no goblin alive, unless there were no elves |
| Day15Program.FoughtOutcome | Solutions/Day15/Program.cs:138-160 | a finished fight scores at least 0, and a total elf victory leaves no goblin alive, unless there were no elves |
| Day15Program.Started | Solutions/Day15/Program.cs:144 | the parsed map, once started, is a consistent battle |
| Day15Program.PlayToEnd | Solutions/Day15/Program.cs:144-152 | the loop plays rounds on the same grid pair until one ends the combat, and ends with the battle and round count of `Fight`, or reports that the bound was reached |
| Day15Program.Score | Solutions/Day15/Program.cs:154-159 | the outcome of the state the last round left, as `OutcomeOf` defines it |
| Day15Program.SolvePart1 | Solutions/Day15/Program.cs:138-160 | parse, start, play until a round ends the combat, and score, as `Part1` defines it |
| Day15Program.Part1Started | Solutions/Day15/Program.cs:138-160 | part 1 fails exactly when starting the battle does, and otherwise plays the started battle |
| Day15Program.SearchFromLowest | Solutions/Day15/Program.cs:162-190 | the power found is the lowest from the first one tried that gives a total elf victory: every lower power was played to the end and lost an elf |
| Day15Program.Part2Started | Solutions/Day15/Program.cs:162-190 | part 2 fails exactly when starting the battle does, and otherwise searches from power 4 on the started battle |
| Day15Program.SearchFromNext | Solutions/Day15/Program.cs:172-188 | a power played to the end without a total elf victory passes the search on to the next power |
| Day15Program.TryPower | Solutions/Day15/Program.cs:177 | one power tried is the map played to the end with that elf attack power |
| Day15Program.SearchPowers | Solutions/Day15/Program.cs:172-188 | powers from the given one on are tried in turn until one gives a total elf victory |
| Day15Program.SolvePart2 | Solutions/Day15/Program.cs:162-190 | the lowest power from 4 on that gives a total elf victory, with its score, as `Part2` defines it |
| Day15ParseGrid.NonBlank | Solutions/Day15/GridOperations.cs:33 | the lines the parser reads are never more than the lines given |
| Day15ParseGrid.NonBlankMembers | Solutions/Day15/GridOperations.cs:33 | a line is read exactly when it is one of the lines and is not null-or-white-space |
| Day15ParseGrid.LineCells | Solutions/Day15/GridOperations.cs:40-67 | a line gives one cell per character |
| Day15ParseGrid.LineCellAt | Solutions/Day15/GridOperations.cs:44-66 | cell `x` of a line is the cell its character stands for, numbered by the goblins and elves before it on the line |
| Day15ParseGrid.ParsedRows | Solutions/Day15/GridOperations.cs:33-70 | one parsed row per line read, as long as the line |
| Day15ParseGrid.Padded | Solutions/Day15/GridOperations.cs:29-30 | the grid has one row per input line, each as wide as the first line, and is rectangular |
| Day15ParseGrid.Parse | Solutions/Day15/GridOperations.cs:25-73 | a failure is an out-of-range error for no lines at all and an argument error otherwise |
| Day15ParseGrid.ParseFails | Solutions/Day15/GridOperations.cs:25-73 | the parse fails exactly when there are no lines, or a line read has the wrong length or a character other than `#`, `.`, `G`, `E`; otherwise the grid is as tall as the input and as wide as its first line |
| Day15ParseGrid.ParsedCell | Solutions/Day15/GridOperations.cs:44-66 | the cell at `(x, y)` is the one its character stands for, numbered by the units of its faction read before it |
| Day15ParseGrid.ReadingOrderIds | Solutions/Day15/GridOperations.cs:31-32 | goblins and elves are each numbered 0, 1, 2, ... in reading order: an id is below the faction's count and a unit read earlier has the smaller id |
| Day15ParseGrid.ParseGrid | Solutions/Day15/GridOperations.cs:25-73 | the method fails exactly when `Parse` does, with the same error, and otherwise returns a fresh array whose contents are `Parse`'s grid |
| Day15ParseGrid.FillRows | Solutions/Day15/GridOperations.cs:33-70 | the row loop succeeds exactly when every line read is well shaped, and then has written every parsed row |
| Day15ParseGrid.FillRow | Solutions/Day15/GridOperations.cs:33-70 | one pass skips a blank line, writes a good line as the next row, and fails only on a line that makes the whole parse fail |
| Day15ParseGrid.BadLine | Solutions/Day15/GridOperations.cs:35-38 | a line read with the wrong width or a foreign character makes the parse fail |
| Day15ParseGrid.ParsedGrid | Solutions/Day15/GridOperations.cs:30 | rows not written stay empty: the array holds the parsed rows padded with empty rows |
| Day15ParseGrid.ParseLine | Solutions/Day15/GridOperations.cs:40-67 | the inner loop succeeds exactly when the line is in the map alphabet, and then yields the line's cells and the ids to number on from |
| Day16Registers.Get | Solutions/Day16/Registers.cs:17-30 | the indexer succeeds exactly for indices 0 to 3, returning that register, and otherwise throws an out-of-range error |
| Day16Registers.SetWithValue | Solutions/Day16/Registers.cs:32-42 | a copy with register `index` set to the value and every other register kept; indices outside 0 to 3 throw an out-of-range error |
| Day16Registers.SetWithRegister | Solutions/Day16/Registers.cs:44 | a copy with register `index` set to register `register`'s value, failing when either is not a register number |
| Day16Registers.EqualityIsComponentWise | Solutions/Day16/Registers.cs:46-58 | `Equals`, `==` and `!=` compare the four registers one by one, which is value equality of the record |
| Day16Registers.SetOwnValue | Solutions/Day16/Registers.cs:32-42 | storing a register's own value back leaves the registers unchanged |
| Day16Registers.GetAfterSet | Solutions/Day16/Registers.cs:17-42 | reading after writing gives the written value at the written index and the old contents elsewhere |
| Day16Instructions.Flag | Solutions/Day16/Instructions/GtIR.cs:9-10 | a comparison stores 1 exactly when it holds and 0 otherwise |
| Day16Instructions.AddR | Solutions/Day16/Instructions/AddR.cs:9-10 | register C becomes the 32-bit wrapped sum of registers A and B, the rest unchanged; fails exactly when A, B or C is not a register |
| Day16Instructions.AddI | Solutions/Tests/Day16Tests.cs:23-30 | register C becomes the 32-bit wrapped sum of register A and value B, the rest unchanged; fails exactly when A or C is not a register |
| Day16Instructions.MulR | Solutions/Day16/Instructions/MulR.cs:13-14 | register C becomes the 32-bit wrapped product of registers A and B, the rest unchanged; fails exactly when A, B or C is not a register |
| Day16Instructions.MulI | Solutions/Day16/Instructions/MulI.cs:9-10 | register C becomes the 32-bit wrapped product of register A and value B, the rest unchanged; fails exactly when A or C is not a register |
| Day16Instructions.BanR | Solutions/Day16/Instructions/BanR.cs:9-10 | register C becomes the bitwise and of registers A and B in two's complement, the rest unchanged |
| Day16Instructions.BanI | Solutions/Day16/Instructions/BanI.cs:9-10 | register C becomes the bitwise and of register A and value B, the rest unchanged |
| Day16Instructions.BorR | Solutions/Day16/Instructions/BorR.cs:9-10 | register C becomes the bitwise or of registers A and B in two's complement, the rest unchanged |
| Day16Instructions.BorI | Solutions/Day16/Instructions/BorI.cs:9-10 | register C becomes the bitwise or of register A and value B, the rest unchanged |
| Day16Instructions.SetR | Solutions/Day16/Instructions/SetR.cs:9-10 | register C becomes a copy of register A, the rest unchanged; B is ignored |
| Day16Instructions.SetI | Solutions/Day16/Instructions/SetI.cs:9-10 | register C becomes value A, the rest unchanged; fails exactly when C is not a register |
| Day16Instructions.GtIR | Solutions/Day16/Instructions/GtIR.cs:9-10 | register C becomes 1 when value A exceeds register B and 0 otherwise, the rest unchanged |
| Day16Instructions.GtRI | Solutions/Day16/Instructions/GtRI.cs:9-10 | register C becomes 1 when register A exceeds value B and 0 otherwise, the rest unchanged |
| Day16Instructions.GtRR | Solutions/Day16/Instructions/GtRR.cs:9-10 | register C becomes 1 when register A exceeds register B and 0 otherwise, the rest unchanged |
| Day16Instructions.EqIR | Solutions/Day16/Instructions/EqIR.cs:9-10 | register C becomes 1 when value A equals register B and 0 otherwise, the rest unchanged |
| Day16Instructions.EqRI | Solutions/Day16/Instructions/EqRI.cs:9-10 | register C becomes 1 when register A equals value B and 0 otherwise, the rest unchanged |
| Day16Instructions.EqRR | Solutions/Day16/Instructions/EqRR.cs:9-10 | register C becomes 1 when registers A and B are equal and 0 otherwise, the rest unchanged |
| Day16Instructions.CopiesIgnoreB | Solutions/Day16/Instructions/SetR.cs:9-10 | the two copy instructions do not depend on argument B |
| Day16Instructions.RegistrySize | Solutions/Day16/Instructions/Opcode.cs:11-23 | the registry holds sixteen distinct operations, and every operation is in it |
| Day16Instructions.ExecuteFailsOnlyOnBadRegister | Solutions/Day16/Registers.cs:17-42 | an instruction fails only when an argument it reads or writes as a register is 4 or more, always when C is, and always with an out-of-range error |
| Day16Instructions.InstructionExamples | Solutions/Tests/Day16Tests.cs:14-174 | the expected register contents of the sixteen instruction tests |
| Day16Program.NewSample | Solutions/Day16/Program.cs:161-177 | a sample needs exactly four instruction bytes, otherwise an argument error; it keeps the registers and splits the bytes into opcode, A, B and C |
| Day16Program.PossibleOpcodes | Solutions/Day16/Program.cs:143-157 | the operations that turn `before` into `after`, as `Possibles` defines it |
| Day16Program.PossiblesFailIff | Solutions/Day16/Program.cs:143-157 | matching a sample throws exactly when some operation throws on it, and otherwise yields exactly the operations that reproduce `after` |
| Day16Program.ExampleSample | Solutions/Tests/Day16Tests.cs:182-196 | the worked sample behaves like exactly mulr, addi and seti |
| Day16Program.SolvePart1 | Solutions/Day16/Program.cs:62-75 | throws exactly when some sample has an argument that is not a register, and otherwise counts the samples that behave like three or more operations |
| Day16Program.ConsistentStep | Solutions/Day16/Program.cs:103-109 | each sample intersects the candidates of its own opcode number with its matches and leaves the other numbers alone |
| Day16Program.ConsistentReproduces | Solutions/Day16/Program.cs:103-109 | a candidate left for an opcode number reproduces every sample that carries it |
| Day16Program.NarrowCandidates | Solutions/Day16/Program.cs:97-109 | succeeds exactly when every sample can be matched and carries an opcode below 16, and then leaves each number with the operations consistent with all its samples |
| Day16Program.StrikeFromOthers | Solutions/Day16/Program.cs:125-133 | the result is `Strike`: the operation gone from every other number and that number untouched; a change is reported exactly when one happened, and never when the operation was absent elsewhere |
| Day16Program.Strike | Solutions/Day16/Program.cs:125-133 | no set grows, the struck number keeps its set, and no other number keeps the operation |
| Day16Program.PassPrefix | Solutions/Day16/Program.cs:115-134 | handling the numbers of a pass in key order, each that was a singleton when the pass began striking its operation from the others, never grows a set |
| Day16Program.PassPrefixStrikes | Solutions/Day16/Program.cs:115-134 | after the first `n` numbers each set has lost exactly the operations resolved at the other numbers among those `n` |
| Day16Program.PassSpec | Solutions/Day16/Program.cs:115-134 | a whole pass, in closed form: each number loses every operation that was the only candidate of another number when the pass began, and no set grows |
| Day16Program.PassInOrder | Solutions/Day16/Program.cs:115-134 | the pass in source order equals the closed form, so the order of the strikes does not matter |
| Day16Program.PassSpecFixed | Solutions/Day16/Program.cs:111-135 | a pass changes nothing exactly when no resolved operation is a candidate of another number |
| Day16Program.EliminationPass | Solutions/Day16/Program.cs:114-134 | the pass computes exactly `PassSpec` of its input; it reports a change exactly when the candidates differ, which is exactly when some resolved operation was still a candidate elsewhere |
| Day16Program.Settle | Solutions/Day16/Program.cs:111-135 | repeating `PassSpec` until it changes nothing ends with sets that only shrank and in which no resolved operation is a candidate of another number; input already so is its own result |
| Day16Program.Eliminate | Solutions/Day16/Program.cs:111-135 | the do-while computes exactly `Settle` of its input |
| Day16Program.SettledMap | Solutions/Day16/Program.cs:137-140 | settled candidates with one operation per number name sixteen different operations |
| Day16Program.BuildOpcodeMap | Solutions/Day16/Program.cs:95-141 | fails on a malformed sample; otherwise succeeds exactly when `Settle` of the sample-consistent sets leaves every number one operation, and then maps each number to that operation; the operations are distinct, consistent with and reproducing every sample; when the samples alone resolve every number without clashes, those are the answers |
| Day16Program.RunProgramAppend | Solutions/Day16/Program.cs:85-90 | running two programs in turn is running their concatenation, and an error stops the run |
| Day16Program.SolvePart2 | Solutions/Day16/Program.cs:77-93 | fails when the samples are malformed or do not settle to one operation per number; when they do settle, the opcode map is the settled one and the answer is exactly the decoded program's run from all-zero registers: register 0 when it runs through, and the run's own error when it does not; every sample is reproduced by the map |

## Left out

- Console output, file input, `Main` methods and the input parsers built on the parser-combinator library are not modelled. Each solution takes its parsed input as a parameter. This covers `PrintState` (Day 3), `Print`/`ShowLastStates` (Day 10), `ShowGrid` and the console cursor (Day 15), and the Day 16 `pRegisters`/`pInstruction`/`pSample` parsers.
- Dictionary and hash-set enumeration order is modelled as an arbitrary order chosen by a ghost function. Where a result could depend on it, the model proves that it does not.
- Day 1: the examples with answers 5 and 14 are not stated. Their literal running totals are too costly to evaluate in the verifier.
- Day01Program.FindFirstRepeatedFrequency: the endless repetition of the changes is cut off at `limit` passes. `FindFirstRepeatedFrequencyStable` shows that a larger limit gives the same answer once one is found.
- Day 4: the timestamps are `(day, hour, minute)` integers rather than `DateTime` values. `Main` runs part 1 on its `testInput` records (Day04/Program.cs:27-57) but asserts no answer for them, so no example is stated.
- Day 5: `char.ToUpperInvariant`/`ToLowerInvariant` are modelled on ASCII letters only. Other Unicode case pairs are not modelled.
- Day06Program.SolvePart1: a ghost function, since it takes the maximum over a dictionary's values. No end-to-end example is stated, because evaluating a whole grid is too costly.
- Quadrants.cs is not part of this model. Day 6 uses `Quadrants.Unknown` and `Quadrants.All`, which it does not declare; they are modelled as the empty and the full set of the four declared quadrants.
- Day07Elves.Without: stated of the corrected second, which starts only steps no busy slot is working on (see Findings). The source's unfiltered start list is `ProcessOneSecondUnfiltered`, for which these do not hold.
- Day07Elves.AscendingWithout: stated of the corrected second, which starts only steps no busy slot is working on (see Findings). The source's unfiltered start list is `ProcessOneSecondUnfiltered`, for which these do not hold.
- Day07Elves.ProcessOneSecond: stated of the corrected second, which starts only steps no busy slot is working on (see Findings). The source's unfiltered start list is `ProcessOneSecondUnfiltered`, for which these do not hold.
- Day07Elves.ProcessOneSecondIdleSlots: stated of the corrected second, which starts only steps no busy slot is working on (see Findings). The source's unfiltered start list is `ProcessOneSecondUnfiltered`, for which these do not hold.
- Day07Elves.ProcessOneSecondStartsDistinct: stated of the corrected second, which starts only steps no busy slot is working on (see Findings). The source's unfiltered start list is `ProcessOneSecondUnfiltered`, for which these do not hold.
- Day07Elves.ProcessOneSecondKeepsReady: stated of the corrected second, which starts only steps no busy slot is working on (see Findings). The source's unfiltered start list is `ProcessOneSecondUnfiltered`, for which these do not hold.
- Day07Elves.ProcessOneSecondKeepsDistinct: stated of the corrected second, which starts only steps no busy slot is working on (see Findings). The source's unfiltered start list is `ProcessOneSecondUnfiltered`, for which these do not hold.
- Day07Elves.ProcessOneSecondKeepsValid: stated of the corrected second, which starts only steps no busy slot is working on (see Findings). The source's unfiltered start list is `ProcessOneSecondUnfiltered`, for which these do not hold.
- Day07Program.AdvanceDistinct: stated of the corrected second, which starts only steps no busy slot is working on (see Findings). The source's unfiltered start list is `ProcessOneSecondUnfiltered`, for which these do not hold.
- Day07Program.AdvanceConsistent: stated of the corrected second, which starts only steps no busy slot is working on (see Findings). The source's unfiltered start list is `ProcessOneSecondUnfiltered`, for which these do not hold.
- Day07Program.GenerateConsistent: stated of the corrected second, which starts only steps no busy slot is working on (see Findings). The source's unfiltered start list is `ProcessOneSecondUnfiltered`, for which these do not hold.
- Day07Program.RunPart2ConsistentAt: stated of the corrected second, which starts only steps no busy slot is working on (see Findings). The source's unfiltered start list is `ProcessOneSecondUnfiltered`, for which these do not hold.
- Day07Program.RunPart2Consistent: stated of the corrected second, which starts only steps no busy slot is working on (see Findings). The source's unfiltered start list is `ProcessOneSecondUnfiltered`, for which these do not hold.
- Day07Program.RunPart2: the loop runs until no worker is busy and no step is ready, but is bounded by `fuel` ticks. The corrected model has no termination argument for that loop.
- Day 9: the larger examples (such as 10 players and 1618 points) are not stated. They are far too long for the verifier to evaluate.
- Day 10: `ExampleDivergenceTest` is not stated, since its literal states are too costly to evaluate. `RunUntilDivergent` is bounded by `limit` steps.
- Day 11: the row and block examples and `SolvePart1(18)` from the tests are not stated.
- Day11Program.GenerateSummedRow: requires a window size from 1 to the grid width plus 1. The source throws `DivideByZero` at size 0 (`x % windowSize`) and cannot allocate a row for a negative or larger size; its only caller passes 3.
- Day11Program.GenerateSummedGrid: requires a window size from 1 to the grid height plus 1, for the same reasons as `GenerateSummedRow`; the only caller passes 3.
- Day11Program.PowerIsHundredsDigit: holds for serial numbers from 0 to 6,000,000 only. Beyond that the C# `int` power computation could overflow.
- Day 12: `BigInteger` sums are unbounded integers. The 325 and 21-generation examples are not stated.
- Day12Program.NextAlive: assumes that no rule produces a pot from five empty pots, which is what lets the pot row stay finite.
- Day 13: the 32-bit wrap of cart coordinates is not modelled, since positions stay inside the map. A map that cannot be loaded is `None` here, whereas the source exits the process. `CollisionExample2` and the tests' `SolvePart2`/`Part2Example` are not stated; the source this model covers has no part 2.
- Day13Program.SolvePart1: requires a map that loads, and is bounded by `fuel` ticks. The source loops until a collision happens.
- Day 14: `Math.Log10` is modelled as an integer digit count, and `IndexOf` as an ordinal search. The Day 14 examples for parts 1 and 2 and `GetNewRecipes` examples 5 to 11 are not stated, because their literal boards are too costly; `RoundOfTwo` covers one round.
- Day14Program.GetNewRecipes: requires that the scoreboard is none of the digit arrays it copies from, which the source never passes. It also requires that the elves' score total stays below 10^10 (`TotalLimit`), the range its digit split covers. The source's `Sum` is a checked 32-bit sum that throws above 2^31 - 1; that overflow is not modelled.
- Day14Program.GenerateScoreboard: requires a length of at least 2, where the source would index past its two starting recipes.
- Day 15: the end-to-end combat examples and the movement examples of the tests are not stated, since a whole battle is far too costly to evaluate. The closeness, move, attack and round operations are proved for all grids.
- Day15GridOperations.CalculateCloseness: like every grid operation, requires a grid whose border is wall. On an unwalled map the source indexes outside the array and throws.
- Day15Closeness.ClosenessMeaning: when several in-range cells lie at the same shortest distance, it does not prove which one the annotation holds. Each sweep prefers the lowest rank and then the first in-range cell in reading order (`Day15GridOperations.KeyOrder`). Whether that gives the first cell in reading order over all shortest paths is not stated.
- Day15GameState.PlayRound: requires a consistent battle (the hit-point table and the grid agree). `Start` establishes it and every round keeps it.
- Day15GameState.PlayRound: the hit-power lookup that the source computes and never uses is not modelled.
- Day15GameState.PlayRound: a target id missing from the hit-point table is treated as not a target. Consistency rules this case out.
- Day15Program.SolvePart1: plays at most `fuel` rounds. The source loops until a round ends the combat.
- Day15Program.SolvePart2: tries the powers from 4 in order, one after another, for at most `tries` powers, and so returns the lowest power that wins. The source runs the powers with `AsParallel()` without `AsOrdered()` before `First`, so it does not guarantee the lowest; the model keeps the evident intent.
- Day15Program.SumOfPositive: sums hit points as unbounded integers, so overflow is not modelled.
- Day 15 `ParseGrid(string)`: the split of the map text on `"\r\n"` is not modelled. `ParseGrid` takes the lines directly, and fills each row of the array in its own method.
- Day 15 `CalculateCloseness(GridPair)`: GameState.cs calls this overload (lines 14, 114 and 157), but GridOperations.cs declares only `CalculateCloseness(GridCell[,])`. The model's `CalculateClosenessOfPair` runs that on the pair's primary grid and writes the converged result back into the primary; the copying back is an assumption taken from the "in situ" doc comment at GridOperations.cs:82-83.
- Day 16: `Opcode.Opcodes` is built by reflection over the instruction classes. It is modelled as the closed list of the sixteen operations.
- Day16Instructions.AddI: the source file for `addi` is not part of this model. It is modelled on `addr` and pinned down by the `Addi` test.

## Findings

| source | as written | input that shows it | evidently intended | confidence | as-written member | corrected member |
|---|---|---|---|---|---|---|
| Solutions/Day02/Program.cs:90 | the partial ids delete positions `0 .. Length - 2` only, so the last character is never deleted | `["ab", "ac"]`: the ids differ only in their last character, yet the search finds no pair and throws | every position can be deleted, giving the common letters `"a"` | high; not executed | Day02Program.SolvePart2MissesLastCharacter | Day02Program.SolvePart2CorrectedFindsLastCharacter |
| Solutions/Day07/NationalElfService.cs:33-34 | every worker slot is read through `ws.MinutesRemaining`, including idle slots that hold null | any run with at least one worker and a step ready at the start: the first second reads an idle slot and throws a null reference | idle workers are skipped, and every second of the run keeps the schedule consistent | high; not executed | Day07Program.RunPart2AsWrittenFails | Day07Program.RunPart2Consistent |
| Solutions/Day07/NationalElfService.cs:35 | each completion is applied to the stale `stepState` parameter rather than to the state accumulated so far | two workers finishing steps `A` and `B` in the same second: both are reported done, but only `B` is executed and `A` stays waiting | every completion of the second is applied in turn | high; not executed | Day07Elves.ProcessOneSecondAsWrittenLosesCompletion | Day07Elves.ProcessOneSecondCompletes |
| Solutions/Day07/NationalElfService.cs:43-45 | every available step is paired with an idle slot, including steps a busy slot is already working on, since a step leaves the step state only when it completes | two workers, base time 0, only `C` ready: the first second starts `C` on slot 0 for two minutes, and the second second starts `C` again on slot 1 | only steps nobody is working on are started, so no two workers ever share a step | high; not executed | Day07Elves.ProcessOneSecondUnfilteredRestartsStep | Day07Elves.ProcessOneSecondKeepsDistinct |
