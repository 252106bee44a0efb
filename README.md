# Advent of Code 2022 solutions, modelled in Dafny

This project models the puzzle logic of the Rust solutions in the
`yourboirusty/aoc2022` repository and proves properties of it. Each day's crate
becomes one module, or several for day 11.

- **Day 11, Monkey in the Middle.** This is the largest part. The module
  `MonkeyBusiness` models the monkeys' operations, their divisibility tests and a
  round of throwing as values. The class `MonkeyBarrel.Monke` and the methods
  beside it model `shenanigans` on a vector of mutable monkeys. They are proved
  against the value model. `MonkeyMath` covers `gcd` and `lcm`, `MonkeyRanking`
  the final sort and product, and `MonkeyNotes` the grouping of input lines. The
  main theorem is `MonkeyBusiness.RoundsCongruent`. It shows that reducing every
  worry level modulo the lcm of the divisors (the "therapy") gives the same
  examination counters as the unreduced simulation. So the reported level of
  monkey business is that of the exchange as the puzzle describes it.
- **Day 5, Supply Stacks.** The `Ship` class moves crates one at a time or in
  stack order. It is proved against functions on the stacks. The crate drawing is
  read row by row, and instructions are parsed and printed.
- **Day 9, Rope Bridge.** The `Rope` class updates its knots in place step by
  step. It is proved against a function model. Lemmas show that the rope stays
  taut and where the head ends.
- **Day 10, Cathode-Ray Tube.** The `Circuit` class covers the instruction queue,
  the register, the signal checker and the CRT beam. `solve` is proved to return
  a reference signal sum and to draw a reference pixel sequence.
- **Day 8, Treetop Tree House.** Tree visibility and scenic scores are computed
  by the loops of the source along its four lines of sight.
- **Day 2, Rock Paper Scissors.** Covers signs, outcomes, scores, fixing a match,
  and parsing a game line.
- **Day 4, Camp Cleanup.** Covers section assignments, full and partial overlap,
  and parsing a pair.
- **Day 3, Rucksack Reorganization.** Covers item priorities, the item both
  compartments share, and the badge of a group of three.
- **Day 6, Tuning Trouble.** Finds the first window of distinct characters.
- **Day 1, Calorie Counting.** Tallies the calories per elf, finds the largest
  total, and adds the top three totals.

`Text` holds the string functions the parsers rely on: splitting on a character,
whitespace-separated words, and decimal numbers with a range check. `Wrappers`
holds `Option` and `Result`.

Where the Rust code uses fixed-width integers (`u32`, `u64`, `i32`, `usize`), the
model uses unbounded integers (see "Left out"). A `panic!`, `unwrap` or `expect`
of the source becomes a precondition. A `Result` the source returns becomes a
`Result` value.

## Model

| member | source | states |
|---|---|---|
| Text.Split | day-04/src/main.rs:17 | splitting yields one piece more than the separator occurs |
| Text.SplitPieces | day-04/src/main.rs:17 | no piece contains the separator |
| Text.SplitJoin | day-04/src/main.rs:17 | joining the pieces with the separator restores the string |
| Text.JoinSplit | day-04/src/main.rs:17 | splitting a join of separator-free pieces restores the pieces |
| Text.SplitPiece | day-04/src/main.rs:17 | splitting `p + rest` gives `p` and then the pieces of the rest |
| Text.Words | day-05/src/main.rs:17 | every word is non-empty and contains no whitespace; a string starting with a non-blank yields a first word that starts with that character |
| Text.WordsFront | day-05/src/main.rs:17 | a word followed by blank-led text is the first word of the whole |
| Text.JoinWords | day-05/src/main.rs:17 | splitting a space-joined list of words restores the list |
| Text.ParseUnsigned | day-04/src/main.rs:18 | a digit-led string parses exactly when it is all digits of value at most the type's maximum, and then to that value; anything accepted starts with a digit or a `+` and is at most the maximum |
| Text.ParsePlus | day-04/src/main.rs:18 | one leading `+` before a digit string does not change the result |
| Text.SinglePlus | day-04/src/main.rs:18 | `+5` parses to 5, while `++5` and a lone `+` are refused |
| Text.Decimal | day-05/src/main.rs:21 | the decimal form of a number is a non-empty digit string without a leading zero |
| Text.DecimalValue | day-05/src/main.rs:21 | the value of the decimal form is the number |
| Text.ParseDecimal | day-05/src/main.rs:21 | parsing the decimal form of a number within range gives that number |
| CalorieCounting.Tally | day-01/src/main.rs:15-23 | one completed sum per separator line |
| CalorieCounting.Batches | day-01/src/main.rs:15-23 | the lines make one batch more than there are separators |
| CalorieCounting.TallySumsBatches | day-01/src/main.rs:15-23 | every pushed sum is the sum of its batch, and the pending sum is that of the last batch |
| CalorieCounting.LoadCalories | day-01/src/main.rs:7-25 | the loop returns one sum per separator, each the sum of the numbers before it; the group after the last separator is not pushed |
| CalorieCounting.MostCalories | day-01/src/main.rs:27-30 | the result is one of the sums and no sum exceeds it; no elves is a panic |
| CalorieCounting.InsertAscending | day-01/src/main.rs:34 | insertion adds exactly one element to the multiset |
| CalorieCounting.SortAscending | day-01/src/main.rs:34 | sorting is a permutation |
| CalorieCounting.InsertAbove | day-01/src/main.rs:34 | a lower bound of the inserted value and of every entry bounds every entry after the insertion |
| CalorieCounting.InsertAscendingSorted | day-01/src/main.rs:34 | inserting into a sorted list keeps it sorted |
| CalorieCounting.SortAscendingSorted | day-01/src/main.rs:34 | the sort's output is ascending |
| CalorieCounting.Reverse | day-01/src/main.rs:35 | `rev` reads the list back to front |
| CalorieCounting.SumReverse | day-01/src/main.rs:35 | reversing any list does not change its sum |
| CalorieCounting.SumAppend | day-01/src/main.rs:35 | the sum of a concatenation is the sum of the sums |
| CalorieCounting.SumPermutation | day-01/src/main.rs:34-35 | lists with the same elements have the same sum, so sorting keeps the total |
| CalorieCounting.MatchPositions | day-01/src/main.rs:34 | distinct positions of a list have distinct positions with the same entries in any reordering of it |
| CalorieCounting.ElvesBound | day-01/src/main.rs:32-36 | the last three entries of a sorted reordering bound any three distinct elves and are carried by three distinct elves |
| CalorieCounting.TopThreeCalories | day-01/src/main.rs:32-36 | the top three never exceed the calories of all elves together |
| CalorieCounting.TopThreeLargest | day-01/src/main.rs:32-36 | with three elves or more, the answer is the last three sorted sums, three distinct elves carry it, and no three distinct elves carry more, on the sorted list or on the elves themselves; with fewer, it is the total of all elves |
| CalorieCounting.TopThreeBound | day-01/src/main.rs:32-36 | in an ascending list, any three distinct positions sum to at most the last three |
| CalorieCounting.SumOfThree | day-01/src/main.rs:35 | `take(3).sum()` of three elements is their sum |
| RockPaperScissors.LosesTo | day-02/src/rps.rs:41-44 | the sign returned is the only sign that beats the given one |
| RockPaperScissors.WinsAgainst | day-02/src/rps.rs:45-48 | the sign returned is the only sign the given one beats |
| RockPaperScissors.RulesOfTheGame | day-02/src/rps.rs:41-48 | the code arithmetic gives rock beats scissors, scissors beats paper, paper beats rock |
| RockPaperScissors.MechanicsInverse | day-02/src/rps.rs:41-48 | `loses_to` and `wins_against` are inverse bijections without fixed points |
| RockPaperScissors.Compare | day-02/src/rps.rs:101-113 | greater exactly when the first sign beats the second, equal exactly for the same sign, less exactly when the second beats the first |
| RockPaperScissors.CompareAntisymmetric | day-02/src/rps.rs:101-113 | the comparison is antisymmetric; it gives equal exactly for the same sign and less exactly when the other sign wins |
| RockPaperScissors.Points | day-02/src/rps.rs:12-16 | an outcome is worth 0, 3 or 6 |
| RockPaperScissors.GameResult | day-02/src/rps.rs:140-154 | the score is the sign value plus 6, 3 or 0, exactly when the player wins, draws or loses; it lies in 1..9 |
| RockPaperScissors.FixMatch | day-02/src/rps.rs:156-164 | for a win the sign beats the opponent's, for a draw it is the same, for a loss the opponent's beats it |
| RockPaperScissors.FixMatchCorrect | day-02/src/rps.rs:156-164 | the fixed sign produces the wanted outcome, and it is the only sign that does |
| RockPaperScissors.FixedGameResult | day-02/src/rps.rs:166-174 | the fixed game scores the fixed sign plus the outcome's points |
| RockPaperScissors.ParseSign | day-02/src/rps.rs:51-60 | A/X is rock, B/Y paper, C/Z scissors, each in both directions |
| RockPaperScissors.ParseOutcome | day-02/src/rps.rs:62-71 | X is a loss, Y a draw, Z a win, each in both directions |
| RockPaperScissors.ParseGame | day-02/src/rps.rs:115-127 | the first token is the opponent's sign and the second the player's |
| RockPaperScissors.ParseFixedGame | day-02/src/rps.rs:129-138 | the first token is the opponent's sign and the second the outcome |
| RockPaperScissors.ParseGameLine | day-02/src/rps.rs:115-127 | every line of two sign tokens "opponent player" is accepted and parses to those two signs |
| RockPaperScissors.ParseFixedGameLine | day-02/src/rps.rs:129-138 | every line of a sign and an outcome token "opponent result" is accepted and parses to that sign and outcome |
| RucksackReorganization.Priority | day-03/src/main.rs:16-28 | a..z have priorities 1..26 and A..Z 27..52, in letter order |
| RucksackReorganization.PriorityInjective | day-03/src/main.rs:16-28 | different letters have different priorities |
| RucksackReorganization.CharsOf | day-03/src/main.rs:72 | a character is in the set exactly when it occurs in the string |
| RucksackReorganization.CharsOfSnoc | day-03/src/main.rs:46-52 | appending a character adds it to the set |
| RucksackReorganization.Utf8Width | day-03/src/main.rs:42 | a character takes 1 to 4 UTF-8 bytes, and 1 exactly when it is ASCII |
| RucksackReorganization.ByteLength | day-03/src/main.rs:42 | `len()` counts between one and four bytes per character, and exactly one per character exactly when the text is ASCII |
| RucksackReorganization.Cut | day-03/src/main.rs:46-52 | the split point is half the byte length when that is within the text, and the end of the text otherwise |
| RucksackReorganization.CutAscii | day-03/src/main.rs:42-52 | on ASCII text the split is at half the character count |
| RucksackReorganization.Compartments | day-03/src/main.rs:42-52 | the items whose index is below half the byte length go to compartment 1 and the rest to compartment 2; together they hold every item |
| RucksackReorganization.Common | day-03/src/main.rs:54-58 | an item is shared exactly when it occurs both before the split and from it on |
| RucksackReorganization.CommonByBytes | day-03/src/main.rs:42-58 | the rucksack `ééb` + `ab`, seven bytes long, splits after the `b` and shares `b` |
| RucksackReorganization.SumOfDupes | day-03/src/main.rs:38-63 | one item per rucksack, each a letter shared by both compartments as split by bytes, and the sum is their priorities |
| RucksackReorganization.WindowsIntersection | day-03/src/main.rs:74-85 | intersecting the two window intersections gives the items common to all three rucksacks |
| RucksackReorganization.SumOfBadges | day-03/src/main.rs:65-90 | one badge per group of three, shared by all three rucksacks, and the sum is their priorities |
| CampCleanup.OverlapsFully | day-04/src/main.rs:33-36 | for well-formed assignments, full overlap holds exactly when one contains the other's sections |
| CampCleanup.Overlaps | day-04/src/main.rs:37-39 | for well-formed assignments, overlap holds exactly when some section is in both |
| CampCleanup.OverlapsFullyMeansContainment | day-04/src/main.rs:33-36 | full overlap is symmetric for every pair, reversed ranges included, and for well-formed assignments holds exactly when one contains the other's sections |
| CampCleanup.ContainsByBounds | day-04/src/main.rs:33-36 | when the inner range is well formed, containment is the bounds comparison |
| CampCleanup.OverlapsMeansSharedSection | day-04/src/main.rs:37-39 | overlap is symmetric and, for well-formed ranges, holds exactly when a section is in both |
| CampCleanup.FullyImpliesOverlaps | day-04/src/main.rs:33-39 | a full overlap of well-formed ranges is an overlap |
| CampCleanup.ParseAssignment | day-04/src/main.rs:14-25 | start and end are the first two `-`-separated numbers, each a valid `u32` |
| CampCleanup.DigitsAvoid | day-04/src/main.rs:14-25 | a digit string contains no separator |
| CampCleanup.ParseFormat | day-04/src/main.rs:14-25 | parsing the text `start-end` of an assignment gives it back |
| CampCleanup.CheckFullOverlap | day-04/src/main.rs:42-48 | the line counts 1 exactly when its pair overlaps fully, and 0 otherwise |
| CampCleanup.CheckOverlap | day-04/src/main.rs:50-56 | the line counts 1 exactly when its pair overlaps, and 0 otherwise |
| CampCleanup.PairOfLine | day-04/src/main.rs:42-56 | the line `a,b` is accepted and yields the pair (a, b) |
| CampCleanup.FormatAvoidsComma | day-04/src/main.rs:42-56 | an assignment's text contains no comma |
| CampCleanup.FullOverlapTotal | day-04/src/main.rs:58-66 | the total is at most the number of lines, zero exactly when no line is a fully overlapping pair, and all lines exactly when every line is one |
| CampCleanup.OverlapTotal | day-04/src/main.rs:68-76 | the total is at most the number of lines, zero exactly when no line is an overlapping pair, and all lines exactly when every line is one |
| CampCleanup.TotalsOrdered | day-04/src/main.rs:58-76 | both totals are at most the number of lines, and with well-formed pairs the first total is at most the second |
| SupplyStacks.ParseInstruction | day-05/src/main.rs:15-43 | the first missing word among 1, 3 and 5 gives its error, and otherwise the amount is word 1 and the stacks are words 3 and 5 less one |
| SupplyStacks.FormatWords | day-05/src/main.rs:17 | the words of an instruction's text are "move", the amount, "from", the source, "to", the target |
| SupplyStacks.ParseFormat | day-05/src/main.rs:15-43 | parsing the text `move a from b to c` of an instruction gives it back |
| SupplyStacks.Reversed | day-05/src/main.rs:74 | reversing keeps the length |
| SupplyStacks.ReversedTwice | day-05/src/main.rs:74 | reversing twice is the identity |
| SupplyStacks.Grip | day-05/src/main.rs:61-76 | the top `amount` crates of a stack, topmost first for crane 1 and in stack order for crane 2 |
| SupplyStacks.AfterMove | day-05/src/main.rs:61-76 | a move keeps the number of stacks |
| SupplyStacks.MoveBetweenStacks | day-05/src/main.rs:61-76 | between two stacks, the source loses its top `amount` crates and the target gains them reversed by crane 1 and in order by crane 2; other stacks are untouched |
| SupplyStacks.MoveWithinStack | day-05/src/main.rs:61-76 | a move onto its own stack puts the crates back reversed by crane 1 and unchanged by crane 2 |
| SupplyStacks.TotalUpdate | day-05/src/main.rs:61-76 | replacing a stack changes the crate total by the difference in its length |
| SupplyStacks.MoveConserves | day-05/src/main.rs:61-76 | a move neither creates nor destroys crates |
| SupplyStacks.AfterCrane | day-05/src/main.rs:78-90 | running the instructions keeps the number of stacks |
| SupplyStacks.CraneConserves | day-05/src/main.rs:78-90 | running the instructions keeps the crate total |
| SupplyStacks.PrefixCanRun | day-05/src/main.rs:78-90 | a prefix of a runnable instruction list is runnable |
| SupplyStacks.Tops | day-05/src/main.rs:92-99 | one top per stack: its last crate, or " " when it is empty |
| SupplyStacks.TopAfterMove | day-05/src/main.rs:61-76 | after a move the target's top is the source's old top for crane 2, and the lowest moved crate for crane 1 |
| SupplyStacks.PushCells | day-05/src/main.rs:144-161 | pushing a row keeps the number of stacks |
| SupplyStacks.PushCellsGrows | day-05/src/main.rs:144-161 | a row adds at most one crate on top of each stack and keeps what was below |
| SupplyStacks.PushStep | day-05/src/main.rs:147-157 | one cell pushes its letter onto its stack exactly when the letter is not whitespace |
| SupplyStacks.RowShape | day-05/src/main.rs:158 | the last cell's letter exists when the row is well formed |
| SupplyStacks.Ship.constructor | day-05/src/main.rs:135-139 | `crate_amount` empty stacks |
| SupplyStacks.Ship.Move | day-05/src/main.rs:61-76 | the pop loop, optional reversal and append leave the stacks of `AfterMove` |
| SupplyStacks.Ship.MoveCrane | day-05/src/main.rs:78-90 | the instructions are applied in queue order, and the crate total is kept |
| SupplyStacks.Ship.PushCrate | day-05/src/main.rs:149-151 | pushing one collected cell adds its letter on top of its stack unless it is whitespace, as `PushCells` does for one more cell |
| SupplyStacks.Ship.PushRow | day-05/src/main.rs:141-164 | the character loop over a drawing row pushes exactly the crates of `PushCells` |
| TuningTrouble.CharSetMembers | day-06/src/main.rs:17 | the window's set holds exactly its characters |
| TuningTrouble.SnocSeen | day-06/src/main.rs:17-18 | appending a character already in the window keeps the set and makes the window repeat |
| TuningTrouble.SnocNew | day-06/src/main.rs:17-18 | appending a new character grows the set by one and keeps the window exactly as distinct as before |
| TuningTrouble.CharSetSize | day-06/src/main.rs:18 | the set is at most as large as the window, and as large exactly when the characters are distinct |
| TuningTrouble.IsMarker | day-06/src/main.rs:16-18 | a window is a marker exactly when it fits in the packet and its set of characters is as large as the window |
| TuningTrouble.FindStart | day-06/src/main.rs:13-24 | `cnt` is the index of the first marker window, or the number of windows when there is none, and the position printed is `cnt + size` |
| TreetopTreeHouse.SightLines | day-08/src/main.rs:27-32 | four lines of sight, all inside the forest |
| TreetopTreeHouse.ViewLines | day-08/src/main.rs:63-68 | four viewing lines, all inside the forest |
| TreetopTreeHouse.CountVisible | day-08/src/main.rs:34-54 | at most one visible side per line |
| TreetopTreeHouse.CountVisibleMeans | day-08/src/main.rs:34-54 | the count is positive exactly when some line is clear, and full exactly when all are |
| TreetopTreeHouse.LookAlong | day-08/src/main.rs:35-50 | the scan of one edge reports hidden exactly when some other tree on it is at least as tall (`HiddenAlong`) |
| TreetopTreeHouse.Sides | day-08/src/main.rs:23-57 | at most four visible sides, and some exactly when some line of sight is clear |
| TreetopTreeHouse.VisibleSides | day-08/src/main.rs:23-57 | the nested scan returns the number of clear lines of sight, at most 4 |
| TreetopTreeHouse.BorderVisible | day-08/src/main.rs:23-57 | a tree on the border is visible from some side |
| TreetopTreeHouse.View | day-08/src/main.rs:70-90 | the view stops at the first tree at least as tall: it counts no further than that tree |
| TreetopTreeHouse.ViewBounds | day-08/src/main.rs:70-90 | a viewing distance is at most the number of trees in that direction, at least one when there is any, and all of them when none blocks |
| TreetopTreeHouse.ViewAtBlocker | day-08/src/main.rs:73-88 | when the tree at `k` is the first at least as tall, the viewing distance is exactly the number of trees up to and including it |
| TreetopTreeHouse.Distances | day-08/src/main.rs:70-90 | four viewing distances |
| TreetopTreeHouse.Scenic | day-08/src/main.rs:92-96 | the scenic score is zero exactly when some viewing distance is zero |
| TreetopTreeHouse.ScenicIsProduct | day-08/src/main.rs:92-96 | the scenic score is the product of the four distances, in the order of the source's loop |
| TreetopTreeHouse.ScenicBorderZero | day-08/src/main.rs:59-97 | a border tree scores zero |
| TreetopTreeHouse.ViewAlong | day-08/src/main.rs:71-88 | the count along one edge is the viewing distance `View`: trees up to and including the first at least as tall |
| TreetopTreeHouse.MultiplyDistances | day-08/src/main.rs:92-95 | the product loop returns the product of the distances |
| TreetopTreeHouse.ScenicScore | day-08/src/main.rs:59-97 | the scans and the product loop return the scenic score |
| TreetopTreeHouse.InteriorFits | day-08/src/main.rs:102-103 | every interior cell is a valid argument of the scans |
| TreetopTreeHouse.RowVisible | day-08/src/main.rs:103-105 | a row adds at most one count per interior column |
| TreetopTreeHouse.LookAtTrees | day-08/src/main.rs:99-108 | the border count plus one for every visible interior tree |
| TreetopTreeHouse.AreaIsProduct | day-08/src/main.rs:99-108 | the cell count of a grid of r rows and c columns is r * c |
| TreetopTreeHouse.LookAtTreesBound | day-08/src/main.rs:99-108 | for every prefix of rows, the border count plus the visible interior trees is at most the number of cells (`Area`); so the count of visible trees never exceeds the number of trees |
| TreetopTreeHouse.AssessTheTrees | day-08/src/main.rs:110-121 | the result is at least every interior scenic score and, unless 0, is attained by an interior tree |
| RopeBridge.Add | day-09/src/main.rs:74-83 | subtracting either summand from the sum gives the other |
| RopeBridge.Sub | day-09/src/main.rs:85-94 | the difference is the origin exactly when the positions are equal |
| RopeBridge.FromMove | day-09/src/main.rs:51-72 | left and right moves stay on the x axis, up and down on the y axis; right and up go `value` forward, left and down `value` back |
| RopeBridge.SubAdd | day-09/src/main.rs:74-94 | subtraction undoes addition |
| RopeBridge.FromMoveAlongAxis | day-09/src/main.rs:51-72 | a move's displacement is `value` unit steps along its axis: R +x, L -x, U +y, D -y |
| RopeBridge.Path | day-09/src/main.rs:108-120 | a move of `value` steps has `max(value, 0)` of them |
| RopeBridge.SumConstant | day-09/src/main.rs:108-120 | `n` equal steps add up to `n` times the step |
| RopeBridge.PathSum | day-09/src/main.rs:108-120 | the steps of a non-negative move add up to the move's displacement |
| RopeBridge.SumConcat | day-09/src/main.rs:168-174 | displacements add over concatenated step lists |
| RopeBridge.GetPath | day-09/src/main.rs:108-120 | the loop returns the path of unit steps |
| RopeBridge.CheckedDivIsSignum | day-09/src/main.rs:160-163 | `checked_div(abs).unwrap_or(0)` is the sign |
| RopeBridge.FollowRule | day-09/src/main.rs:154-164 | a knot stays while touching its predecessor, and otherwise moves one unit towards it on each differing axis |
| RopeBridge.Follow | day-09/src/main.rs:154-164 | a touching knot stays; a knot ends touching its old place, and touching a predecessor that was at most two away |
| RopeBridge.Pulled | day-09/src/main.rs:152-166 | pulling keeps the number of knots |
| RopeBridge.StepRope | day-09/src/main.rs:140-145 | a step keeps the number of knots |
| RopeBridge.RunSteps | day-09/src/main.rs:168-174 | running steps keeps the number of knots |
| RopeBridge.RunSnoc | day-09/src/main.rs:168-174 | one more step is one more `process_step`, and it adds the new last knot to the visited set |
| RopeBridge.PulledKeepsHead | day-09/src/main.rs:153 | the tail loop never moves the head |
| RopeBridge.HeadAfterSteps | day-09/src/main.rs:147-150 | the head ends at its start plus the sum of the steps |
| RopeBridge.StepsOfSum | day-09/src/main.rs:168-174 | the steps of non-negative moves add up to the moves' displacements |
| RopeBridge.HeadAfterMoves | day-09/src/main.rs:168-174 | after the moves the head is at its start plus their displacement, and there are as many knots |
| RopeBridge.PulledTaut | day-09/src/main.rs:152-166 | mid-loop, the knots already pulled touch their predecessors, the rest are unmoved, and the next one touches its predecessor's old place |
| RopeBridge.StepKeepsTaut | day-09/src/main.rs:140-145 | a unit step of a taut rope leaves it taut |
| RopeBridge.RunKeepsTaut | day-09/src/main.rs:168-174 | unit steps keep a taut rope taut |
| RopeBridge.StepsOfUnit | day-09/src/main.rs:108-120 | every step of every move is a unit step |
| RopeBridge.MovesKeepTaut | day-09/src/main.rs:189-197 | a rope starting with all knots at the origin stays taut through any moves |
| RopeBridge.VisitedBound | day-09/src/main.rs:143-144 | every tail position after a step is recorded, and there are at most as many as steps |
| RopeBridge.Rope.constructor | day-09/src/main.rs:133-138 | the given knots, with only the origin visited |
| RopeBridge.Rope.ProcessHead | day-09/src/main.rs:147-150 | knot 0 moves by the step and nothing else changes |
| RopeBridge.Rope.ProcessTail | day-09/src/main.rs:152-166 | the loop leaves the knots pulled in order; the visited set is unchanged |
| RopeBridge.Rope.ProcessStep | day-09/src/main.rs:140-145 | the head steps, the tail follows, and the last knot is recorded |
| RopeBridge.Rope.ProcessPath | day-09/src/main.rs:170-172 | the steps of one move continue the run: the knots become `RunSteps` of the steps so far and the set gains the positions visited |
| RopeBridge.ExtendRun | day-09/src/main.rs:170-172 | one more step of a path is one more `StepRope` and adds the new tail position |
| RopeBridge.Rope.ExecuteMoves | day-09/src/main.rs:168-174 | the knots end as `RunSteps` of all the steps, and the set gains every tail position visited |
| CathodeRayTube.Pixel | day-10/src/main.rs:53-58 | a pixel is lit exactly when the beam is at most one column from the register, and dark otherwise |
| CathodeRayTube.Layout | day-10/src/main.rs:59-65 | the screen has one newline per full row of 40, and pixel `i` sits at position `i + i / 40` |
| CathodeRayTube.LayoutSnoc | day-10/src/main.rs:59-65 | drawing one more pixel appends it, and a newline after every 40th |
| CathodeRayTube.ScreenStep | day-10/src/main.rs:52-66 | appending a pixel to the row, or flushing a full row, keeps display + row equal to the layout of the pixels drawn |
| CathodeRayTube.Beam | day-10/src/main.rs:95-100 | one pixel per cycle |
| CathodeRayTube.CycleStep | day-10/src/main.rs:95-100 | one cycle draws at the beam with the current register and adds the signal when the clock is a checkpoint |
| CathodeRayTube.NextCheckStep | day-10/src/main.rs:84-91 | with the checker at the next checkpoint, a cycle is sampled exactly at a checkpoint, and the checker stays the next one |
| CathodeRayTube.ValueSumConcat | day-10/src/main.rs:76-82 | the register changes add over concatenated queues |
| CathodeRayTube.QueueOfProgram | day-10/src/main.rs:110-117 | a program queues one cycle per noop and two per addx, and its queue adds the sum of the addx values |
| CathodeRayTube.Circuit.constructor | day-10/src/main.rs:26-45 | register 1, clock 0, first check at 20, an empty screen and queue |
| CathodeRayTube.Circuit.Add | day-10/src/main.rs:47-50 | queues an empty cycle and then the value |
| CathodeRayTube.Circuit.Noop | day-10/src/main.rs:68-70 | queues an empty cycle |
| CathodeRayTube.Circuit.Load | day-10/src/main.rs:110-117 | queues the program's cycles in order |
| CathodeRayTube.Circuit.DrawCrt | day-10/src/main.rs:52-66 | draws the pixel at the beam, advances it, and flushes a full row with a newline |
| CathodeRayTube.Circuit.CheckSignal | day-10/src/main.rs:84-91 | 0 before the checker; from it on, the strength `register * clock`, with the checker advanced by 40 |
| CathodeRayTube.Circuit.Tick | day-10/src/main.rs:76-82 | the front entry is dequeued and its value, if any, added to the register |
| CathodeRayTube.Circuit.Cycle | day-10/src/main.rs:95-100 | one cycle: the clock ticks, one pixel is drawn with the old register, the signal is sampled at a checkpoint, and the front entry is executed |
| CathodeRayTube.SolveStep | day-10/src/main.rs:95-100 | one pass advances the beam one column modulo the width, adds the entry to the register, draws the pixel at the beam and adds the sampled strength to the sum |
| CathodeRayTube.Circuit.SolvePass | day-10/src/main.rs:95-100 | one pass of the loop keeps the account `SolvedUpTo` of state and sum for one more entry |
| CathodeRayTube.Circuit.Solve | day-10/src/main.rs:93-102 | runs the whole queue; the register gains its values, the clock its length, the screen the beam of `Beam`, and the result is the reference `SignalSum` |
| MonkeyMath.DividesProduct | day-11/src/math.rs:12 | a number divides its multiples |
| MonkeyMath.DividesFactor | day-11/src/math.rs:12 | a divisor of a positive number is at most it |
| MonkeyMath.DividesTransitive | day-11/src/math.rs:12 | divisibility is transitive |
| MonkeyMath.DividesCombination | day-11/src/math.rs:1-7 | a common divisor divides a linear combination |
| MonkeyMath.DividesRemainder | day-11/src/math.rs:1-7 | a common divisor of `a` and `b` divides `a % b` |
| MonkeyMath.Gcd | day-11/src/math.rs:1-7 | `gcd(a, 0) == a` |
| MonkeyMath.GcdDivides | day-11/src/math.rs:1-7 | the gcd divides both arguments |
| MonkeyMath.GcdGreatest | day-11/src/math.rs:1-7 | every common divisor divides the gcd |
| MonkeyMath.GcdPositive | day-11/src/math.rs:1-7 | the gcd is positive unless both arguments are zero |
| MonkeyMath.LcmStepFactors | day-11/src/math.rs:12 | `a * b / gcd(a, b)` is `a` times a whole factor, and `b` times one |
| MonkeyMath.LcmStepCommonMultiple | day-11/src/math.rs:12 | one step yields a common multiple, zero exactly when an input is zero |
| MonkeyMath.LcmOf | day-11/src/math.rs:9-15 | the folded lcm is zero exactly when a number is zero |
| MonkeyMath.LcmOfCommonMultiple | day-11/src/math.rs:9-15 | the folded lcm is a multiple of every number |
| MonkeyMath.LcmOfSnoc | day-11/src/math.rs:11-13 | each loop pass folds in one more number without dividing by zero |
| MonkeyMath.Lcm | day-11/src/math.rs:9-15 | the loop returns a common multiple of all numbers, positive when they are all positive, and the number itself for a one-element list |
| MonkeyMath.ModAddMultiple | day-11/src/main.rs:117 | adding multiples of `m` does not change the remainder |
| MonkeyMath.CongruentToRemainder | day-11/src/main.rs:117 | a number is congruent to its remainder |
| MonkeyMath.CongruentModDivisor | day-11/src/main.rs:117 | congruence modulo `m` implies it modulo every divisor of `m` |
| MonkeyMath.AddMod | day-11/src/main.rs:38 | the remainder of a sum is the sum of remainders, reduced |
| MonkeyMath.AddCongruent | day-11/src/main.rs:38 | sums of congruent numbers are congruent |
| MonkeyMath.MulMod | day-11/src/main.rs:39 | the remainder of a product is the product of remainders, reduced |
| MonkeyMath.MulCongruent | day-11/src/main.rs:39 | products of congruent numbers are congruent |
| MonkeyBusiness.Operand | day-11/src/main.rs:35-36 | `old` reads the worry level, and a constant reads itself |
| MonkeyBusiness.Apply | day-11/src/main.rs:34-41 | the new level is the sum or the product of the two operands |
| MonkeyBusiness.Perform | day-11/src/main.rs:85-96 | the level goes to `on_true` when it is divisible and to `on_false` otherwise |
| MonkeyBusiness.Inspect | day-11/src/main.rs:109-114 | the pair is the target of the new level and the new level |
| MonkeyBusiness.Passes | day-11/src/main.rs:155-161 | one pass per item the monkey held |
| MonkeyBusiness.PassesTargets | day-11/src/main.rs:155-161 | every pass targets an existing monkey, and pass `k` is the inspection of item `k` |
| MonkeyBusiness.Throw | day-11/src/main.rs:164 | throwing keeps the number of monkeys |
| MonkeyBusiness.Deliver | day-11/src/main.rs:163-165 | delivering keeps the number of monkeys |
| MonkeyBusiness.DeliverAt | day-11/src/main.rs:163-165 | every monkey's queue gains the items thrown to it, in order, and its counter is unchanged |
| MonkeyBusiness.Turn | day-11/src/main.rs:152-166 | a turn keeps the number of monkeys |
| MonkeyBusiness.TurnEffect | day-11/src/main.rs:152-166 | the monkey whose turn it is empties its queue and counts each item; every monkey receives what is thrown to it |
| MonkeyBusiness.Turns | day-11/src/main.rs:152 | the turns keep the number of monkeys |
| MonkeyBusiness.TurnsZero | day-11/src/main.rs:152 | no turns leave the barrel as it is |
| MonkeyBusiness.TurnsNext | day-11/src/main.rs:152 | the turns go in index order |
| MonkeyBusiness.TurnsExaminations | day-11/src/main.rs:152-166 | a monkey's counter grows once, by the queue length it holds at its own turn |
| MonkeyBusiness.TotalsUpdate | day-11/src/main.rs:152-166 | replacing one monkey changes the totals by the difference |
| MonkeyBusiness.TotalsAgree | day-11/src/main.rs:152-166 | equal queue lengths and counters give equal totals |
| MonkeyBusiness.DeliverTotals | day-11/src/main.rs:163-165 | delivering adds one item per pass and no examination |
| MonkeyBusiness.TurnTotals | day-11/src/main.rs:152-166 | a turn loses no item, and it adds one examination per item the monkey held |
| MonkeyBusiness.TurnsTotals | day-11/src/main.rs:152-166 | after any turns the items are conserved, and the examinations grow by those examined |
| MonkeyBusiness.RoundTotals | day-11/src/main.rs:151-170 | a round conserves the items, and the examinations grow by the queue lengths at each turn |
| MonkeyBusiness.Reduce | day-11/src/main.rs:116-118 | each level is replaced by its remainder, in order |
| MonkeyBusiness.TherapyAll | day-11/src/main.rs:167-169 | every queue is reduced and every counter kept |
| MonkeyBusiness.Round | day-11/src/main.rs:151-170 | a round keeps the number of monkeys |
| MonkeyBusiness.Rounds | day-11/src/main.rs:138-140 | rounds keep the number of monkeys |
| MonkeyBusiness.RawRounds | day-11/src/main.rs:138-140 | the unreduced rounds keep the number of monkeys |
| MonkeyBusiness.ApplyCongruent | day-11/src/main.rs:34-41 | the operation preserves congruence |
| MonkeyBusiness.PerformCongruent | day-11/src/main.rs:85-96 | levels congruent modulo a multiple of the divisor go to the same monkey |
| MonkeyBusiness.ReductionKeepsRouting | day-11/src/main.rs:109-118 | reducing by a multiple of every divisor keeps each level's divisibility and target |
| MonkeyBusiness.AgreeTransitive | day-11/src/main.rs:151-170 | agreement modulo `m` is transitive |
| MonkeyBusiness.AgreeReflexive | day-11/src/main.rs:151-170 | agreement modulo `m` is reflexive |
| MonkeyBusiness.PassesCongruent | day-11/src/main.rs:155-161 | congruent queues give the same targets and congruent levels |
| MonkeyBusiness.ThrowCongruent | day-11/src/main.rs:164 | throwing congruent levels keeps the barrels in agreement |
| MonkeyBusiness.DeliverCongruent | day-11/src/main.rs:163-165 | delivering agreeing passes keeps the barrels in agreement |
| MonkeyBusiness.TurnCongruent | day-11/src/main.rs:152-166 | a turn keeps agreeing barrels in agreement |
| MonkeyBusiness.TurnsCongruent | day-11/src/main.rs:152-166 | any number of turns keeps agreeing barrels in agreement |
| MonkeyBusiness.TherapyCongruent | day-11/src/main.rs:167-169 | therapy keeps a barrel in agreement with itself unreduced |
| MonkeyBusiness.RoundCongruent | day-11/src/main.rs:151-170 | a round with therapy agrees with a round without it |
| MonkeyBusiness.RoundsCongruent | day-11/src/main.rs:137-140 | after any number of rounds, the simulation with therapy agrees with the one without it modulo the lcm, with the same counters |
| MonkeyNotes.Grouped | day-11/src/main.rs:249-264 | one group per empty line, plus one |
| MonkeyNotes.FlattenSnoc | day-11/src/main.rs:249-264 | flattening adds over an appended group |
| MonkeyNotes.GroupedFlatten | day-11/src/main.rs:249-264 | the groups hold exactly the non-empty lines, in order |
| MonkeyNotes.GroupedNoEmptyLine | day-11/src/main.rs:249-264 | no group holds an empty line |
| MonkeyNotes.GroupLines | day-11/src/main.rs:249-264 | the loop returns the groups: one per empty line plus one, holding the non-empty lines in order |
| MonkeyRanking.Standings | day-11/src/main.rs:141 | one standing per monkey, with its index and its counter |
| MonkeyRanking.Insert | day-11/src/main.rs:141 | insertion adds exactly one standing |
| MonkeyRanking.SortByExaminations | day-11/src/main.rs:141 | the sort is a permutation |
| MonkeyRanking.InsertRanked | day-11/src/main.rs:141 | inserting into a ranked list keeps it ranked |
| MonkeyRanking.SortRanked | day-11/src/main.rs:141 | the sorted barrel is in descending order of counters, with ties in barrel order |
| MonkeyRanking.TopCounts | day-11/src/main.rs:143 | the counters of the first two monkeys, or of all when there are fewer |
| MonkeyRanking.MonkeyBusinessLevel | day-11/src/main.rs:144-147 | the product of the top counters: 1 for none, the counter for one, the product of the first two otherwise |
| MonkeyRanking.ProductOfTwo | day-11/src/main.rs:144-147 | the product of two counters |
| MonkeyRanking.RankedTop | day-11/src/main.rs:141-143 | the first two of a ranking are two different monkeys, the busiest and the busiest of the rest |
| MonkeyRanking.TopTwoLargest | day-11/src/main.rs:141-147 | the answer is the largest counter times the largest counter among the other monkeys |
| MonkeyBarrel.Monke.constructor | day-11/src/main.rs:237-243 | a monkey with the given queue and rules, and no examinations |
| MonkeyBarrel.Monke.Examine | day-11/src/main.rs:109-114 | one more examination, the front item removed, and the inspection of that item returned |
| MonkeyBarrel.Monke.Therapy | day-11/src/main.rs:116-118 | every level reduced modulo the lcm, in order, and the counter kept |
| MonkeyBarrel.RulesOf | day-11/src/main.rs:152-166 | the rules of every monkey, in barrel order |
| MonkeyBarrel.Divisors | day-11/src/main.rs:131 | the test divisor of every monkey, in barrel order |
| MonkeyBarrel.GetLcm | day-11/src/main.rs:130-133 | the lcm of the divisors, divisible by each of them, and a valid reduction modulus |
| MonkeyBarrel.ExamineAll | day-11/src/main.rs:155-161 | the monkey empties its queue front to back, counts one examination per item, and the passes are `Passes` of the old queue |
| MonkeyBarrel.DeliverAll | day-11/src/main.rs:163-165 | the passes land on their targets' queues as `Deliver` puts them |
| MonkeyBarrel.TakeTurn | day-11/src/main.rs:153-165 | the examine and delivery loops leave the objects holding the state of `Turn` |
| MonkeyBarrel.TherapyForAll | day-11/src/main.rs:167-169 | the objects hold the state of `TherapyAll` |
| MonkeyBarrel.NextTurn | day-11/src/main.rs:152-166 | after the turns of the monkeys before `idx`, its own turn leaves the objects holding `Turns` of one monkey more |
| MonkeyBarrel.TakeTurns | day-11/src/main.rs:152-166 | the turns in index order leave the objects holding `Turns` of all monkeys |
| MonkeyBarrel.Shenanigans | day-11/src/main.rs:151-170 | the objects hold the state of `Round` |
| MonkeyBarrel.Counts | day-11/src/main.rs:143 | the counters of a state, in barrel order |
| MonkeyBarrel.CountsOf | day-11/src/main.rs:143 | the counters of the objects, in barrel order |
| MonkeyBarrel.ValidRulesLcm | day-11/src/main.rs:130-133 | valid rules have positive divisors, so `lcm` never divides by zero |
| MonkeyBarrel.RoundsCounts | day-11/src/main.rs:137-140 | the rounds with therapy report the counters of the rounds without it |
| MonkeyBarrel.Simulate | day-11/src/main.rs:135-149 | the objects hold the state after the rounds with therapy, and the answer is the monkey business of the unreduced exchange |
| MonkeyBarrel.PlayRounds | day-11/src/main.rs:135-149 | after the 10 000 rounds of `main`, the answer is the monkey business of the unreduced exchange |

## Left out

- File reading and printing are left out. Each operation takes the lines of its
  input as a parameter and returns what the source prints. This covers
  `load_data`, `load_calories`'s file handle, `solve`'s hard-coded packet on
  day 6, `build_ship`'s file, and every `println!`.
- Parsing that only calls `From<&str>` on a known token set is left out:
  day 9's `Direction` and `Move`, day 10's command words, and day 11's `Operator`,
  `Operation`, `Tests` and the command loop of `load_data` (day-11 main.rs:172-247).
  These parsers take the operation as already-parsed values. Day 2, 4 and 5 parse
  as the source does.
- Fixed-width integers are left out. `u32`, `u64`, `i32` and `usize` are
  unbounded here, so the model does not capture overflow of the score and sum
  accumulators, the day-11 levels or day-9 coordinates. The model does keep the
  `u32` and `u64` range checks of parsing on days 4 and 5.
- MonkeyRanking.SortByExaminations: `sort_by` is modelled as a stable insertion
  sort on values, not in place. The day-1 `sort` is modelled the same way as a
  value sort.
- SupplyStacks.Ship.PushRow: the source reads the drawing from the bottom row up
  over the reversed file. The model takes each row as given. The half of
  `build_ship` that finds the instruction lines and the stack count is left out.
  `grip.reverse()` becomes a reassignment of a value.
- TreetopTreeHouse.VisibleSides: each edge of the source is a nested loop over a
  rectangle that is always one row or one column wide. The model flattens it into
  one loop over those cells. The right-hand range is bounded by `forest.len()`,
  the number of rows, as in the source. So on a grid wider than it is tall, the
  columns beyond the row count are ignored. A tree whose right line would read past
  the row width is excluded by the precondition (`Fits`), even where the scan
  would stop earlier. Ragged rows are excluded (`IsForest`).
- TuningTrouble.FindStart: the puzzle's answer is the printed position. The source
  assumes a marker exists. When there is none, the model reports what the code
  prints.
- RucksackReorganization.SumOfDupes: `collect::<Vec<_>>()[0]` picks some element
  of a hash set. The model picks an arbitrary shared item, and it requires every
  shared item to be a letter, because the hash order is not modelled.
- RucksackReorganization.Priority: `is_alphabetic` and `is_lowercase` are
  modelled for ASCII letters only.
- CathodeRayTube.Circuit.DrawCrt: the sprite character appears in the source
  file as mis-decoded bytes of U+2588 FULL BLOCK, and is modelled as U+2588. The
  unused `crt_height` is not modelled. The drawn pixels are kept as a ghost
  history to state the invariant of the screen.
- CathodeRayTube.Circuit.Cycle: this is the body of `solve`'s loop, split out
  into its own method. `SignalStrength` is a function without a contract, used
  by `CheckSignal`.
- Inner loops and loop bodies of the source are split out into methods of their
  own: TreetopTreeHouse.LookAlong, ViewAlong and MultiplyDistances,
  SupplyStacks.Ship.PushCrate, RopeBridge.Rope.ProcessPath,
  CathodeRayTube.Circuit.SolvePass, and MonkeyBarrel.ExamineAll, DeliverAll,
  TakeTurn, NextTurn and TakeTurns. The statements and their order are those of the source; only the
  enclosing function changes.
- MonkeyBarrel.Monke: `name` is kept but never used, as in the source. The
  `Debug` formatting is left out.
- Day 7 is not part of this model, and neither is day 2's `main.rs`, which only
  reads lines and sums the scores.
