# Human-technique sudoku engine, modelled in Dafny

This project models the engine of a sudoku solver that works like a human does: it never backtracks. It applies named techniques and either sets a cell or eliminates candidates. The techniques are solved square (naked single), hidden single, naked set, hidden set, pointing pair, X-Wing and Y-Wing.

The model covers these parts:

- **The board.** A `Game` of box width `k` holds `k^4` cells. Each cell has an optional value, the method that set it, and the block items applied to it.
- **Groups.** Boxes, rows and columns are built the way the game constructor builds them.
- **Candidates.** The `sudoku` rule, the invalid and blocked maps, each cell's available numbers, and the per-group number-to-cells map and array.
- **Predicates and actions.** The validity, possibility and solved predicates. The cell and game actions: `setValue`, `applyBlockStrategy`, `applyStrategy`, `resetPossibles`, `reset` and `resetToStart`.
- **Loading and text.** The board loader `readBoardFile`, the covered-union search `findCoveredUnions`, and the reason texts.
- **The techniques and the step.** The seven techniques and `buildStrategyStep`.
- **The solving actions.** `checkSolutions` (on the pending-item overlay), `stepSolveGame` and `solveGame`.

How the model represents the source:

- **Identity.** Cells are identified by their index and groups by `(kind, index, cells)`. Every equality the code does on cell or group objects becomes equality of these values.
- **Values.** JavaScript truthiness of cell values is modelled literally: `Truthy(Some(0))` is false.
- **Throws.** A throwing operation returns a `Result`. A `forEach` that throws midway returns the partly updated game together with the error.
- **Block items can name valued cells.** `pointingPairs` and `xWing` list every cell of a group outside the pattern, including cells that already hold a value. `applyStrategy` skips those cells because they have no candidates.

Behaviour of the code worth knowing:

- **`findCoveredUnions` never selects the last element of its list.** The loop runs `i` from 1 and picks `list[i - 1]`. So for the three items `{1,2}`, `{2,3}`, `{1,3}`, whose only covering needs all three, the result is empty. `SudokuUtils.TriangleHasNoCovering` proves this.
- **`hiddenSets` never returns a move.** Its guard asks whether a cell reference's candidates overlap a list of cell references. Numbers and cells never compare equal, so the guard always fails. `Strategy.HiddenSetsNeverFire` proves it returns nothing for every game.
- **`solveGame` loops until the board is solved, invalid or stuck.** The loop has no counter. It ends because every applied item strictly lowers the number of (cell, available number) pairs (`Termination.Open`).
- **The overlay only works with nothing pending.** `strategyValue` reads `actions[-1]`, which is `undefined`, whenever a set item is pending on a cell. `strategyAvailableNumbers` throws "Available, not implemented" whenever a block item is pending. So on the intended overlay, `checkSolutions` collects at most one item, and it throws once it has one (`Solve.CheckSolutions`). As written, the overlay's computed cycle throws before anything is collected (see "## Left out").
- **The two throws in `yWing` are unreachable.** A two-candidate cell always has a candidate other than the shared one (`Strategy.OtherOf`). `Strategy.YWingSpec` proves `yWing` never throws.

`buildStrategyStep` is modelled as the first decided answer in the ordered list of the seven technique answers. `Strategy.BuildStrategyStepCascade` proves this equals the code's `if` cascade.

## Model

| member | source | states |
|---|---|---|
| Collections.Range | src/utils/index.ts:12-15 | `range(s, e)` has `max(e - s, 0)` elements and its `k`-th element is `s + k` |
| Collections.RangeTo | src/utils/index.ts:12-14 | `range(n)` is `0, 1, ..., n - 1` (empty for `n <= 0`) |
| Collections.RangeMembers | src/utils/index.ts:12-15 | a number is in `range(s, e)` exactly when `s <= v < e` |
| Collections.Exists | src/utils/index.ts:7-8 | `exists(e)` is false exactly for `null`, `undefined` and the empty string |
| Collections.ExistsNumbers | src/utils/index.ts:7-8 | `exists` holds for every number, 0 included, and for `false`, so the X-Wing guard on a found index never rejects it |
| Collections.Overlap | src/utils/index.ts:37-38 | `arraysOverlap(a, b)` holds exactly when some element of `a` occurs in `b` |
| Collections.LooselyEqual | src/utils/index.ts:40-41 | `arraysLooslyEqual` holds exactly when the lengths agree and every element of `a` occurs in `b` |
| Collections.LooselyEqualIsNotPermutation | src/utils/index.ts:40-41 | loose equality is not multiset equality: `[1, 1]` is loosely equal to `[1, 2]` |
| Collections.ExactlyEqual | src/utils/index.ts:43-44 | `arraysExactlyEqual` holds exactly when the two arrays are equal element by element |
| Collections.FindLastIndex | src/utils/index.ts:71-80 | `findLastIndex` returns the greatest index the predicate accepts, or -1 when none does |
| Collections.Flatten | src/utils/index.ts:46-50 | `flattenArray` holds exactly the elements of the spliced arrays and of the non-array items |
| Collections.FlattenAppend | src/utils/index.ts:46-50 | flattening is one level deep and keeps order: flattening a concatenation concatenates the flattenings |
| Collections.ObjectMap | src/utils/index.ts:17-25 | `objectMap` keeps the key list and stores `mapFn(value, key)` under every key |
| Collections.ObjectFilter | src/utils/index.ts:27-35 | `objectFilter` keeps exactly the keys the predicate accepts, with unchanged values and no new keys |
| Collections.Find | src/utils/sudoku/strategy.ts:267-270 | `Array.find` is `undefined` exactly when no element passes; otherwise it is the first passing element |
| Collections.FirstSomeSpec | src/utils/sudoku/strategy.ts:23-36 | a loop that returns the first non-null answer returns null exactly when every answer is null, and otherwise the answer at the first index that has one |
| Collections.FirstFoundSpec | src/utils/sudoku/strategy.ts:251-318 | the same for a loop whose bodies may throw: the first answer that is not a quiet null is the result |
| Collections.PairScanNone | src/utils/sudoku/strategy.ts:181-189 | the `for i / for j > i` scan finds nothing exactly when no pair `i < j` gives an answer |
| Collections.PairScanHolds | src/utils/sudoku/strategy.ts:181-189 | whatever the pair scan returns comes from some pair `i < j` |
| Collections.StableSortBy | src/state/sudoku.ts:373 | `Array.sort` by a numeric key returns a permutation of its input, ordered by the key |
| Collections.StableSortKeepsTies | src/state/sudoku.ts:373 | the sort is stable: elements with equal keys keep their input order |
| Strings.IntToString | src/state/sudoku.ts:63-65 | a number's decimal rendering is non-empty, all digits for a non-negative number, and starts with `-` for a negative one |
| Strings.ParseNatToString | src/utils/sudoku/utils.ts:16 | `parseInt` of a number's decimal rendering gives the number back |
| Geometry.FourthRoot | src/utils/sudoku/utils.ts:18-20 | the length test `sqrt(sqrt(n)) % 1 === 0` gives the integer `k` with `k^4 = n`, or none exactly when `n` is no fourth power |
| Geometry.AcceptedLengths | src/utils/sudoku/utils.ts:18-20 | lengths 0, 1, 16, 81 and 256 pass the shape test; 9, 36 and 80 do not |
| Geometry.ReadableNameParts | src/state/sudoku.ts:51-69 | `readableName` is the letter with code `65 + index div size` (below the surrogate range; see "## Left out") followed by the 1-based column `index mod size + 1` |
| Geometry.Boxes | src/state/sudoku.ts:422-441 | the constructor makes `size` boxes, numbered in loop order |
| Geometry.BoxSize | src/state/sudoku.ts:429-434 | every box holds `size` cells |
| Geometry.BoxMembership | src/state/sudoku.ts:422-441 | cell `i` is in box `b` exactly when it is on the board and its box row and box column give `b` |
| Geometry.RowMembership | src/state/sudoku.ts:443-448 | row `r` is the slice `[r * size, r * size + size)` |
| Geometry.ColMembership | src/state/sudoku.ts:450-455 | column `c` holds exactly the cells whose index is `c` modulo `size` |
| Geometry.Groups | src/state/sudoku.ts:483-485 | `game.groups` has `3 * size` groups |
| Geometry.GroupsOrder | src/state/sudoku.ts:483-485 | `game.groups` lists the boxes, then the columns, then the rows, each in index order |
| Geometry.FamiliesDistinct | src/state/sudoku.ts:422-455 | no two entries of `game.groups` are the same group, so comparing groups by value is comparing them by identity |
| Geometry.CellGroupsShape | src/state/sudoku.ts:436-455 | every cell is pushed exactly three groups: its box, its row and its column, in that order |
| Geometry.CellGroupsMembers | src/state/sudoku.ts:436-455 | a group of the board is among a cell's groups exactly when it holds the cell |
| Geometry.CellGroupsHold | src/state/sudoku.ts:436-455 | a cell lies in one of cell `i`'s groups exactly when it is on the board and shares a box, row or column with `i` |
| Geometry.GroupCellsOnBoard | src/state/sudoku.ts:422-455 | every cell index a group lists is on the board |
| Types.ActionOf | src/utils/sudoku/types.ts:54-73 | a move's action is `Set` exactly for set items, `Block` for block items, and never `Reset` |
| Types.MethodOf | src/utils/sudoku/types.ts:54-71 | a set item carries `InitialGame`, `SolvedSquare` or `HiddenSingle`; a block item carries `NakedSet`, `HiddenSet`, `PointingPair`, `XWing` or `YWing` |
| Types.MethodsDisjoint | src/utils/sudoku/types.ts:54-71 | no method is shared by a set item and a block item |
| Types.Describe | src/utils/sudoku/types.ts:121-161 | a description starts with its fixed lead; the naked-set, pointing-pair, X-Wing and Y-Wing texts go on with the `grc` rendering of the affected cells, and the others are the lead alone |
| Types.DescribeIgnoresAffected | src/utils/sudoku/types.ts:121-144 | the set-item and hidden-set descriptions do not depend on the affected-cell list |
| Types.SolvedSquareWording | src/utils/sudoku/types.ts:121-122 | "Solved Square ", then the cell's readable name, and it ends with the value |
| Types.HiddenSingleWording | src/utils/sudoku/types.ts:124-125 | "hidden single ", then the cell's readable name, and it ends with the value |
| Types.WingsDescribeAffected | src/utils/sudoku/types.ts:157-161 | after "X-WING (): " or "Y-WING (): " the text splits on `/` into the readable names of the affected cells, in order |
| SudokuUtils.ReadBoardFile | src/utils/sudoku/utils.ts:5-23 | rejects any input that is neither an array nor a string; rejects any length that is no fourth power; returns an array unchanged and a digit string as its digits |
| SudokuUtils.ParseChar | src/utils/sudoku/utils.ts:16 | `parseInt(c, 10)` of one character is a number exactly for a digit, and then it is that digit |
| SudokuUtils.RemoveFirstBlank | src/utils/sudoku/utils.ts:10 | the first `replace` drops at most one character and leaves a string without blanks unchanged |
| SudokuUtils.ReplaceFirstNonDigit | src/utils/sudoku/utils.ts:10 | the second `replace` keeps the length and leaves a digit string unchanged |
| SudokuUtils.FindCoveredUnions | src/utils/sudoku/utils.ts:25-46 | every returned pair has a non-empty, duplicate-free union exactly as long as its covered list; the union is the accessor's union over the covered items, which extend the given prefix by a subsequence of the list without its last element; an empty list that has not reached a covering gives nothing |
| SudokuUtils.FindCoveredUnionsComplete | src/utils/sudoku/utils.ts:25-46 | every order-preserving choice from the list without its last element that extends the covered list to a covering, with no shorter prefix of the choice covering already, is returned with its union |
| SudokuUtils.CoveredUnionsFrom | src/utils/sudoku/utils.ts:35-43 | the loop from `i` only adds items from `list[i - 1]` up to the second-to-last element |
| SudokuUtils.CoveringStops | src/utils/sudoku/utils.ts:31 | once the union is exactly as long as the covered list, that pair is returned and not extended |
| SudokuUtils.TriangleHasNoCovering | src/utils/sudoku/utils.ts:32-44 | for the items `{1,2}`, `{2,3}`, `{1,3}` the search returns nothing |
| SudokuUtils.EmptyListNoCovering | src/utils/sudoku/utils.ts:32 | an empty list yields no result |
| SudokuUtils.GrcNames | src/utils/sudoku/utils.ts:48-50 | `grc` joins the cells' readable names with `/`: splitting on `/` gives them back in order |
| Board.Size | src/state/sudoku.ts:463-465 | `size` squared is the number of cells |
| Board.SquareSize | src/state/sudoku.ts:467-469 | `squareSize` squared is `size` |
| Board.WellFormedIsValidGame | src/state/sudoku.ts:471-473 | a board of fourth-power length passes `isValidGame` |
| Board.PossibleValues | src/state/sudoku.ts:475-477 | `possibleValues` is `1..size`, ascending |
| Board.IsEmptyGame | src/state/sudoku.ts:479-481 | a game is empty exactly when no cell has a value |
| Board.SetCellValue | src/state/sudoku.ts:174-192 | throws exactly on a given cell; otherwise 0 or no value clears value and source, and any other value is stored with the item's method (or `Unknown`) as source; the blocks never change |
| Board.SetThenClear | src/state/sudoku.ts:174-192 | setting a cell that is not given and then clearing it leaves the cell with no value and no source |
| Board.ResetCellPossibles | src/state/sudoku.ts:230-234 | `resetPossibles` drops a cell's block items unless the cell is given, and keeps its value and source |
| Board.ResetCell | src/state/sudoku.ts:236-241 | `reset` leaves a given cell alone and empties every other cell |
| Board.ResetCellIdempotent | src/state/sudoku.ts:236-241 | resetting a cell twice is the same as resetting it once |
| Board.NewCell | src/state/sudoku.ts:35-48 | a nonzero digit makes a given cell with that value; 0 makes an empty cell without a source |
| Board.NewGame | src/state/sudoku.ts:416-420 | the constructor makes one cell per digit, in order, with nothing pending |
| Board.NewGameGivens | src/state/sudoku.ts:35-48 | a cell of a new game is given, and has a truthy value, exactly when its digit is nonzero |
| Board.ToStringDigits | src/state/sudoku.ts:487-489 | `toString` of a new game writes one character per cell: its digit, or `0` for an empty cell |
| Board.ToStringRoundTrip | src/state/sudoku.ts:487-489 | reading a new game's `toString` back with `readBoardFile` gives the digits it was built from |
| Rules.SudokuRule | src/utils/sudoku/rules.ts:8-25 | the rule's keys are exactly the values held by another cell of one of the cell's groups; every entry is an empty list |
| Rules.SudokuSees | src/utils/sudoku/rules.ts:10-22 | a value is invalid for a cell exactly when a different cell sharing a box, row or column holds it |
| Candidates.MergeRule | src/state/sudoku.ts:94-103 | merging one rule's result adds exactly that rule's keys |
| Candidates.InvalidValues | src/state/sudoku.ts:93-104 | `invalidValues` has exactly the sudoku rule's keys, each holding the rule's one empty reason list |
| Candidates.InvalidOfOneRule | src/state/sudoku.ts:459-461 | the game's rule list holds exactly the `sudoku` rule, so the merge over it is the merge of that one rule |
| Candidates.BlockedValues | src/state/sudoku.ts:115-124 | `blockedValues` has exactly the values of the cell's block items, each with an empty list |
| Candidates.Available | src/state/sudoku.ts:143-148 | a valued or off-board cell has no available numbers; the others are ascending and within `1..size` |
| Candidates.AvailableMembers | src/state/sudoku.ts:143-148 | an empty cell's available numbers are exactly the values in `1..size` that are neither invalid nor blocked for it |
| Candidates.CandidateIff | src/state/sudoku.ts:143-148 | a value is neither invalid nor blocked for a cell exactly when no peer holds it and no block item of the cell names it |
| Candidates.CellIsValidIff | src/state/sudoku.ts:163-165 | a cell is valid exactly when it is empty or no peer holds its value |
| Candidates.SolvedIsValid | src/state/sudoku.ts:524-540 | a solved game is valid |
| Candidates.SolvedHasNoConflicts | src/state/sudoku.ts:538-540 | in a solved game no two cells sharing a box, row or column hold the same value |
| Candidates.GroupAvailable | src/state/sudoku.ts:329-333 | a group's available numbers are exactly the values in `1..size` that no cell of the group holds, ascending |
| Candidates.CandidateIsMissing | src/state/sudoku.ts:329-333 | a cell's available number is missing from each of the cell's groups |
| Candidates.CellsFoldEntry | src/state/sudoku.ts:347-353 | the reduce appends each cell, in group order, to the entry of every number it has available |
| Candidates.PossibleToCellsMap | src/state/sudoku.ts:344-356 | the map's keys are exactly the numbers some group cell has available; each entry lists, in group order, exactly the group cells having that number, and is never empty |
| Candidates.AscendingEntries | src/state/sudoku.ts:368-372 | `Object.entries` of the map lists each key with its cells, keys ascending |
| Candidates.PossibleToCellsArray | src/state/sudoku.ts:364-376 | the array is a permutation of the entries, sorted by number of matching cells, with ties kept in ascending key order |
| Candidates.ArrayEntries | src/state/sudoku.ts:364-376 | an entry is in the array exactly when its number is in `1..size` and its cells are the group cells having that number, at least one |
| Actions.ApplyBlock | src/state/sudoku.ts:194-209 | `applyBlockStrategy` throws exactly when none of the cell's available numbers would survive; otherwise it appends the item to the cell's blocks; the valued-cell throw is never reached first |
| Actions.FirstFailureSpec | src/state/sudoku.ts:571-573 | the `forEach` stops at the first affected cell whose block would throw; no earlier cell throws |
| Actions.ApplyStrategy | src/state/sudoku.ts:571-573 | a set item throws exactly on a given target and otherwise changes only that cell, as `setValue` does; a block item blocks each affected cell with an overlapping candidate, in order, up to the first one that throws, and leaves the rest unchanged |
| Actions.UnaffectedUnchanged | src/state/sudoku.ts:211-215 | a cell the item does not name is never changed |
| Actions.ApplyKeepsConsistent | src/state/sudoku.ts:571-573 | applying any item keeps every cell's value matched by a source, and keeps every cell holding only block items |
| Actions.AvailableDependsOn | src/state/sudoku.ts:143-148 | a cell's available numbers depend only on the board's values and the cell's own block items |
| Actions.ResetPossibles | src/state/sudoku.ts:549-558 | `resetPossibles` keeps every value and resets each cell's blocks as the cell action does |
| Actions.ResetToStart | src/state/sudoku.ts:560-569 | `resetToStart` resets every cell as the cell action does |
| Actions.ResetToStartIdempotent | src/state/sudoku.ts:560-569 | resetting to the start twice is the same as once |
| Actions.ResetForgetsItem | src/state/sudoku.ts:560-569 | resetting after applying any item that is not an initial-game set gives the same board as resetting before it |
| Termination.OpenZero | src/state/sudoku.ts:592-600 | the solve measure is zero exactly when no cell has an available number |
| Termination.AvailableShrinks | src/state/sudoku.ts:143-148 | when a board extends another (values kept, blocks kept), no cell gains available numbers; a cell loses one when it gets a value or the number is eliminated |
| Termination.ProgressSetSucceeds | src/state/sudoku.ts:174-179 | a set item that makes progress targets a cell that is not given, so it never throws |
| Termination.ExtendsShrinks | src/state/sudoku.ts:592-600 | a board that extends another and loses one available number has a strictly smaller measure |
| Termination.ProgressShrinks | src/state/sudoku.ts:592-600 | applying, without a throw, an item that makes progress strictly lowers the measure |
| Termination.ProgressExtends | src/state/sudoku.ts:592-600 | applying an item that makes progress keeps every value and every block |
| Strategy.SolvedSquareSpec | src/utils/sudoku/strategy.ts:22-37 | `solvedSquare` is null exactly when no cell has exactly one available number; otherwise it sets the first such cell, in index order, to that number |
| Strategy.SolvedSquareProgress | src/utils/sudoku/strategy.ts:22-37 | the solved-square item targets an empty cell with a value it has available |
| Strategy.HiddenSingleOnSpec | src/utils/sudoku/strategy.ts:42-55 | for one group and one number: null exactly when that number is not available in exactly one group cell; otherwise it sets that one cell to the number |
| Strategy.HiddenSingleGroupSpec | src/utils/sudoku/strategy.ts:41-56 | one group is null exactly when no number in `1..size` has a single place in it; otherwise the item sets the one place of such a number |
| Strategy.HiddenSingleSpec | src/utils/sudoku/strategy.ts:39-59 | `hiddenSingle` is null exactly when no group of `game.groups` has a number with a single place; otherwise it is a hidden single of some group |
| Strategy.HiddenSingleProgress | src/utils/sudoku/strategy.ts:39-59 | the hidden-single item targets an empty cell with a value it has available |
| Strategy.CoveringIsNakedSet | src/utils/sudoku/strategy.ts:63-67 | every covering found over a group's empty cells is a naked set: as many values as cells, every candidate of the cells in the union, and every union value a candidate of some covered cell |
| Strategy.NakedSetForSpec | src/utils/sudoku/strategy.ts:67-82 | a covering that yields an item blocks its union from the group's empty cells outside the covered list, and one of those cells has a candidate in the union |
| Strategy.NakedSetsSpec | src/utils/sudoku/strategy.ts:61-86 | any item `nakedSets` returns is a naked-set item of some group of the board |
| Strategy.NakedSetsProgress | src/utils/sudoku/strategy.ts:61-86 | the naked-set item eliminates at least one available number |
| Strategy.NumbersAreNotCells | src/utils/sudoku/strategy.ts:100-102 | no number in the guard's candidate list equals any cell reference in the union, so the overlap test fails |
| Strategy.HiddenSetsNeverFire | src/utils/sudoku/strategy.ts:88-120 | `hiddenSets` returns null on every game |
| Strategy.SharedGroupHolds | src/utils/sudoku/strategy.ts:126-130 | a shared group is a board group, other than the origin group, that holds every matching cell |
| Strategy.PointingForSpec | src/utils/sudoku/strategy.ts:133-156 | an item found for a shared group blocks just the number from that group's cells outside the matching list; all cells of the origin group having the number lie in the shared group, and some affected cell has it |
| Strategy.PointingPairsSpec | src/utils/sudoku/strategy.ts:122-162 | any item `pointingPairs` returns is a pointing-pair item of some origin group, shared group and number |
| Strategy.PointingPairsProgress | src/utils/sudoku/strategy.ts:122-162 | the pointing-pair item eliminates at least one available number |
| Strategy.GroupByKindEntries | src/utils/sudoku/strategy.ts:171-178 | grouping the candidate groups by type lists, under each type, exactly the candidates of that type in their order |
| Strategy.ZeroMatchSpec | src/utils/sudoku/strategy.ts:191-207 | a zero match found at position 0 or 1 is a group of the first cell of group `i`, crossing the chosen cell of group `j`, of another type |
| Strategy.FoundCrossing | src/utils/sudoku/strategy.ts:194-200 | the found linking group holds both cells, differs from both groups of the pair, and has another type |
| Strategy.XWingPairSpec | src/utils/sudoku/strategy.ts:186-239 | an item found for a pair of same-type groups is an X-Wing on them |
| Strategy.XWingSpec | src/utils/sudoku/strategy.ts:164-247 | any item `xWing` returns blocks one number that is confined to two cells in each of two groups of one type; the item's cells are the two linking groups' cells outside both groups, and some of them has the number |
| Strategy.XWingProgress | src/utils/sudoku/strategy.ts:164-247 | the X-Wing item eliminates at least one available number |
| Strategy.OtherOf | src/utils/sudoku/strategy.ts:267-272 | a two-candidate cell holding `b` always has another candidate, so `?? -1` never falls back and neither throw is reached |
| Strategy.YWingBcGroupSpec | src/utils/sudoku/strategy.ts:253-260 | the pincers looked for in one group of the pivot lead only to Y-Wing items, never to a throw |
| Strategy.YWingSharedSpec | src/utils/sudoku/strategy.ts:262-313 | once the pivot and the `bc` pincer share exactly one candidate `b`, the search neither throws nor returns anything but a Y-Wing item |
| Strategy.YWingTargetSpec | src/utils/sudoku/strategy.ts:289-309 | a target found in a `c` group is a Y-Wing item that eliminates `c` from it |
| Strategy.YWingPivotSpec | src/utils/sudoku/strategy.ts:251-317 | the search from one open pivot neither throws nor returns anything but a Y-Wing item |
| Strategy.YWingSpec | src/utils/sudoku/strategy.ts:249-319 | `yWing` never throws; any item it returns blocks one value `c` in one cell, under the pivot and pincer conditions, and eliminates a candidate |
| Strategy.AnswerSound | src/utils/sudoku/strategy.ts:330-336 | every technique's answer is either null or an item that makes progress on the game |
| Strategy.DecidedStep | src/utils/sudoku/strategy.ts:326-339 | on a valid game the step does not throw, and any item it returns makes progress |
| Strategy.BuildStrategyStepThrows | src/utils/sudoku/strategy.ts:327 | `buildStrategyStep` throws exactly on an invalid game, with the "Game invalid" error |
| Strategy.BuildStrategyStepProgress | src/utils/sudoku/strategy.ts:326-339 | any item the step returns makes progress: it sets an available number on an empty cell, or eliminates an available number |
| Strategy.BuildStrategyStepCascade | src/utils/sudoku/strategy.ts:329-338 | on a valid game the step is the first non-null of solved square, hidden single, naked sets, hidden sets, pointing pairs and X-Wing, and otherwise the Y-Wing answer |
| Strategy.BuildStrategyStepNone | src/utils/sudoku/strategy.ts:329-338 | on a valid game the step returns null exactly when every technique does |
| Solve.StrategyGame | src/state/sudoku.ts:621-637 | the overlay of a non-empty board is the game itself exactly when every pending item is a set item for a cell off the board; a pending block item, with no set item pending on cell 0, gives "Available, not implemented" |
| Solve.PendingItemBreaksOverlay | src/state/sudoku.ts:152-156 | once an item that makes progress is pending, building the overlay throws |
| Solve.CheckSolutions | src/state/sudoku.ts:575-583 | `checkSolutions` never changes a committed cell; it stops with nothing pending on a solved, invalid or stuck board; otherwise it pends exactly the first step's item and throws on the overlay |
| Solve.FirstRound | src/state/sudoku.ts:576-581 | the first round sees the game itself, does not throw on a valid game, and the item it pends breaks the overlay |
| Solve.ApplyProgressing | src/state/sudoku.ts:589 | applying an item that makes progress keeps the game consistent; it throws only when a block would empty a cell, and otherwise keeps every value and block and lowers the measure |
| Solve.StepSolveGameSpec | src/state/sudoku.ts:585-590 | `stepSolveGame` throws on an invalid game; otherwise it throws only when a block would empty a cell, or it leaves the game as it was, or it extends it with a strictly smaller measure |
| Solve.SolveGame | src/state/sudoku.ts:592-600 | `solveGame` ends; without a throw it keeps every value and block and stops on a solved, invalid or stuck board; its only possible throw is a block that would empty a cell |

## Left out

- **MobX.** The reactive layer (`@observable`, `@computed`) is left out. Every derived value is a pure function of the board.
- **The overlay's computed cycle.** `strategyCell` reads `strategyGroup`, which reads `strategyCell` again. The model takes the overlay that was evidently intended, which is the game itself when nothing is pending.
- Solve.CheckSolutions: states the behaviour on the intended overlay. As written, the first `isStrategySolved` read goes through `strategyGame`, `strategyGroup` and `strategyCell`, re-enters `strategyGroup`, and MobX throws a cycle error before any item is pushed; the model does not represent that error.
- Geometry.ReadableNameParts: `String.fromCharCode(65 + row)` is modelled only below the surrogate range. For rows with `65 + row >= 0xD800` the model names the row U+FFFD, where the code gives a lone surrogate or a private-use or other character, and wraps the code modulo 2^16 (row 65518 gives `/`). Boards that large (more than 55000 rows) are not modelled faithfully.
- **The overlay's build order.** The overlay is modelled as built cell by cell from cell 0. Only which error comes first depends on this order.
- **Object identity.** Cells and groups compare by index and content. The code's own comment says reference equality is unreliable. `Geometry.FamiliesDistinct` shows the two agree on the board's groups.
- **Other parts of the program.** The `GameManager` singleton, the `window` handle, the bundled sample games, `copyToClipboard` and `alert` are not modelled. They are program wiring and UI, not the engine.
- **History.** The history items, `createHistoryItem` and `addAffectedCellToHistory` are not modelled. They are uuid-based bookkeeping that no technique reads.
- **`slugify`.** Not modelled: it is regular-expression and Unicode text handling outside the engine.
- **Library wrappers.** `deepclone`, `uuid` and the `console` calls are not modelled. `readBoardFile` copies an array, and the model treats that array as a value.
- **The group-size warning.** The `console.warn` for a group that is not 9 cells long is not modelled, because it does not change the result.
- **NaN cells.** A string cell is `parseInt` of one character, which is a digit or NaN. Only the digit case is characterised, and the model does not build boards from NaN cells.
- **`parseInt` text forms.** `readBoardFile` on an array keeps its integers. The model does not cover `parseInt` of exponent, hexadecimal or fractional text.
- **Regex replacements.** The two `replace` calls in `readBoardFile` act on the first match only, and are modelled that way by `SudokuUtils.RemoveFirstBlank` and `SudokuUtils.ReplaceFirstNonDigit`. Their contracts, and the loader's contents, are characterised only for strings without blanks or with digits only.
- **Floating-point square roots.** `Math.sqrt` is replaced by integer square and fourth-power tests.
- Board.NewGame: requires a fourth-power cell count, because the constructor's box loop only makes sense for such boards; every board the loader accepts meets it.
- **Error texts.** They are modelled as error constructors. Only the reason strings of the moves are rendered.
- Strategy.NakedSetsSpec: states that any returned item is a naked set of some group; does not state that it is the first in group and covering order, because that order is a recursion over sorted cells with no closed form.
- Strategy.PointingPairsSpec: states what a returned item is; does not characterise when the search returns null, nor which group comes first.
- Strategy.XWingSpec: states what a returned item is; does not characterise when the search returns null, nor which number and pair come first.
- Strategy.YWingSpec: states what a returned item is and that no throw happens; does not characterise when the search returns null, nor which pivot comes first.
- Strategy.HiddenSingleSpec: states that a returned item is a hidden single of some group and number; does not state that this group and number are the first in scan order.
- Solve.SolveGame: does not bound the number of rounds, because the code sets none; it proves only that the loop ends.
