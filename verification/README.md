# Sudoku engines: candidate bookkeeping, cage combinatorics and search

A Dafny model of the two Sudoku engines of the repository. Both are Python 2
scripts. In Python 2, `/` on ints is floor division, and with the divisor 3
that is Dafny's `/`.

**`normal.py` (classic Sudoku)**

- Modules `NormalGrid` and `NormalSolver`.
- The grid maps each position `(x, y)` to a cell. A cell has an optional value, one boolean candidate flag per digit and a cached `candidateCount`.
- `setCell` lowers a digit's flag across the cell's column, row and 3x3 box. `unsetCell` raises it there again.
- `isSolved` and `fill` are built on those two.
- `solve` picks the empty cell with the fewest candidates (MRV). It tries that cell's raised flags in ascending order, recurses, and undoes each try.
- Every mutating method is a pure function that returns the new grid.
- `sys.exit()` on a solved grid becomes the result `Solved`.
- The AttributeError raised when the selection finds no cell becomes the result `NoCellSelected`.

**`killer.py` (killer Sudoku)**

- Modules `CageLists`, `KillerCage`, `KillerGrid` and `KillerSolver`.
- `CageCandidateListGenerator` enumerates every ordered list of distinct digits with 1..maxSize entries, keyed by its sum.
- A cage keeps the candidate lists still possible for it. The three `removeBy...` methods filter those lists.
- `Grid.__init__` builds the lookups from cell, row, column and 3x3 group to cages. It also asks the generator for each cage's lists and sets up the row, column and group digit lists.
- `Grid.setCell` places a value and prunes accordingly.
- `solve` is one greedy step: take the cage with the fewest non-empty lists, place its first list, then empty that cage's lists.
- The puzzle is a sequence of `(total, cells)` definitions rather than JSON.
- Cage objects are shared between `cages` and the lookups. Here the lookups hold cage indices, which name the same shared cage.

**Errors and preconditions**

- A Python KeyError becomes `Failure(MissingKey)`. A `list.remove` ValueError becomes `Failure(MissingValue)`. Both come from a `Result`.
- Conditions that would raise IndexError or TypeError are preconditions instead. These are a list longer than its cage, and a `None` where a list is used.

**Plain flags, no reference counts**

- `normal.py` keeps one boolean flag per cell and digit. It does not count how many placements exclude a digit at a cell.
- `killer.py` filters each cage's lists and keeps plain digit lists per row, column and group.
- So `unsetCell` is not an inverse of `setCell` in general. `NormalGrid.SetUnsetRoundTrip` proves the round trip under the condition where it does hold. `NormalGrid.SetUnsetReraisesFlag` shows how it fails otherwise.

**The killer `solve` size bound**

- `solve` starts its search with the bound 99999 and keeps this literally as `KillerSolver.SizeBound`.
- In the grid `Grid.__init__` builds, a 9-cell cage holds either no list or all 9! = 362880 orderings of 1..9. So it cannot be selected until `setCell` pruning brings its lists below the bound.

## Model

| member | source | states |
|---|---|---|
| NormalGrid.NewCell | normal.py:10-16 | a new cell has the given coordinates and value, all nine flags raised and a count of 9 that equals its number of raised flags |
| NormalGrid.NewGrid | normal.py:26-32 | a new grid has a cell at exactly the 81 board positions, every cell empty with all flags raised and a count of 9, no value counted, and a counter equal to the number of filled cells |
| NormalSolver.SolvedIffFull | normal.py:40-44 | `isSolved` (counter equals 81) holds exactly when every cell holds a value, whenever the counter counts the filled cells |
| NormalGrid.RemoveCandidate | normal.py:58-61 | afterwards the digit's flag at (x, y) is lowered; the count drops by one exactly when the flag was raised; other flags, the value, every other cell and the counter are unchanged; the count invariant is kept |
| NormalGrid.AddCandidate | normal.py:76-79 | the mirror image: the flag is raised, the count grows by one exactly when it was lowered, nothing else changes, the count invariant is kept |
| NormalGrid.TargetsArePeers | normal.py:50-56 | the cells `setCell` and `unsetCell` visit, (x, i), (i, y) and the box cells, are on the board and are exactly the cells sharing column, row or box with (x, y) |
| NormalGrid.RemoveAll | normal.py:50-56 | lowering one digit along a sequence of positions lowers it exactly at the listed positions and leaves values, counter, other digits and the count invariant intact |
| NormalGrid.AddAll | normal.py:68-74 | raising one digit along a sequence of positions raises it exactly at the listed positions and leaves values, counter, other digits and the count invariant intact |
| NormalGrid.SetCell | normal.py:46-56 | stores the value, counts it, lowers that digit exactly in column x, row y and the box (the cell itself included), changes no other flag or value, and keeps the count invariant |
| NormalGrid.UnsetCell | normal.py:63-74 | clears the value, uncounts it, raises the old digit in every cell of column x, row y and the box whether or not another placement excludes it there, changes no other flag or value, keeps the count invariant |
| NormalGrid.SetCellConsistent | normal.py:46-48 | placing into an empty cell keeps the counter equal to the number of filled cells |
| NormalGrid.UnsetCellConsistent | normal.py:63-66 | clearing a filled cell keeps the counter equal to the number of filled cells |
| NormalGrid.SetUnsetRoundTrip | normal.py:46-79 | `unsetCell` after `setCell` on an empty cell restores the whole grid when the digit was raised at every peer beforehand; `SetUnsetReraisesFlag` is the converse |
| NormalGrid.SetUnsetReraisesFlag | normal.py:63-74 | if some peer had the digit lowered beforehand, `unsetCell` after `setCell` raises it there, so the grid is not restored |
| NormalGrid.FillFrom | normal.py:34-38 | filling from scan index k on counts one placement per positive entry from k on, never raises a flag, and keeps the count invariant |
| NormalGrid.FillFromValues | normal.py:34-38 | after filling from scan index k, a cell holds `data[y][x]` when that entry lies at or after k and is positive, and its old value otherwise |
| NormalGrid.ExcludedStep | normal.py:34-38 | a flag is lowered by the entries from scan index k on exactly when the entry at k places its digit at a peer or an entry from k + 1 on does |
| NormalGrid.FillFromFlags | normal.py:34-38 | after filling from scan index k, the flag of d at q is raised exactly when it was raised before and no positive entry at or after k places d at a peer of q |
| NormalGrid.Fill | normal.py:34-38 | `fill` stores every positive entry at its cell and keeps the others, counts exactly the positive entries, keeps the count invariant, and leaves a flag raised exactly when it was raised before and no entry places its digit at a peer |
| NormalSolver.SelectCell | normal.py:95-106 | returns no cell exactly when no empty cell has a count below 10; otherwise the first empty cell in x-major scan order with a strictly smallest count, where the scan stops at the first empty cell with a count of 1 and a count of 0 can be chosen |
| NormalSolver.MrvChoiceUnique | normal.py:95-106 | at most one scan index meets the selection rule, so the rule fixes the chosen cell |
| NormalSolver.UnsolvedHasEligible | normal.py:95-106 | when the counter counts the filled cells and the grid is not solved, the selection finds a cell |
| NormalSolver.PlaceTry | normal.py:108-111 | a try on the selected empty cell removes exactly that cell from the empty cells and keeps the counter consistent |
| NormalSolver.UndoTry | normal.py:108-112 | `unsetCell` after a failed try brings back the entry values and counter and keeps the invariants |
| NormalSolver.TryExtends | normal.py:108-111 | a grid that keeps every value of a try, which filled the empty cell and changed no other value, keeps every value of the grid the try started from |
| NormalSolver.Solve | normal.py:83-112 | a grid solved on entry is returned unchanged; a found solution is solved and keeps all entry values; an exhausted search is back to the entry values and counter; the count invariant always holds; with a consistent counter the selection never fails and consistency is kept |
| CageLists.AddCandidateList | killer.py:24-28 | appends the list under its total, creating the entry when missing, and leaves the other totals unchanged |
| CageLists.GenerateIsAddAll | killer.py:14-22 | the depth-first recursion threading the dictionary stores exactly the lists of an independent preorder enumeration, each under its sum, in that order |
| CageLists.EmittedCount | killer.py:14-22 | the enumeration below a prefix emits each longer list of distinct digits that extends the prefix, up to maxSize entries, exactly once and nothing else |
| CageLists.GeneratorContents | killer.py:8-28 | the generator has a key exactly for the sums of lists of 1..maxSize distinct digits, and under each key every such list with that sum occurs exactly once and no other list occurs |
| CageLists.GetPermutedCandidateLists | killer.py:36-41 | fails with KeyError exactly when the total is not a key; otherwise returns the stored lists of the requested length, in stored order and each as often as stored |
| CageLists.PermutedLists | killer.py:36-41 | on a fresh generator the lookup succeeds exactly when some list reaches the total, and then returns each ordering of `size` distinct digits with that sum exactly once |
| KillerCage.NewCage | killer.py:48-52 | a new cage has the given total and cells and an empty list of candidate lists |
| KillerCage.RemoveBy | killer.py:54-94 | the shared filter: nothing happens when the lists are `None`; otherwise the result is a subsequence of the old lists keeping exactly the lists that put no `value` in a cell of the region, each as often as before |
| KillerCage.RemoveByColumn | killer.py:54-66 | keeps exactly the lists with no index i such that `cells[i].x == x` and `cl[i] == value`, as a subsequence and each as often as before; `None` is left alone |
| KillerCage.RemoveByRow | killer.py:68-80 | the same filter comparing `cells[i].y` with y, with the same multiplicities |
| KillerCage.RemoveByGroup | killer.py:82-94 | the same filter comparing `(cells[i].x / 3, cells[i].y / 3)` with the group, by floor division, with the same multiplicities |
| KillerCage.RemoveByIdempotent | killer.py:54-94 | filtering twice by the same region and value equals filtering once |
| KillerCage.RemoveByCommute | killer.py:167-172 | filters by two regions give the same cage in either order |
| KillerGrid.EmptyLookups | killer.py:105-117 | the initial row, column and group lookups have exactly keys 0..8, 0..8 and (0..2, 0..2), each holding an empty list |
| KillerGrid.AddCell | killer.py:130-134 | registering one cell fails with KeyError exactly when it is off the board; otherwise it records the cage for the cell and appends the cage to exactly the row, column and group lists of that cell |
| KillerGrid.AddCells | killer.py:130-134 | registering a cage's cells fails exactly when a cell is off the board; otherwise every cell is recorded for the cage, and each region list gets the cage appended once for every cell of the cage in that region and nothing else |
| KillerGrid.BuildLookups | killer.py:105-134 | fails exactly when some cell is off the board; otherwise each region lookup lists exactly the cages with a cell in that region, and the cell lookup maps exactly the cage cells, each to a cage that contains it (the last one registered) |
| KillerGrid.MaxCageSize | killer.py:119-123 | the largest cage size (0 for no cages) |
| KillerGrid.InitialCages | killer.py:124-128 | one new cage per definition, with its total and its cells in order |
| KillerGrid.AssignLists | killer.py:136-139 | fails with KeyError exactly when some total is not a generator key; otherwise every cage keeps its total and cells and receives the generator's lists for its total and size |
| KillerGrid.TotalsReachable | killer.py:136-139 | every cage total is a generator key exactly when every total is reached by some list of at most maxCageSize distinct digits |
| KillerGrid.InitialLists | killer.py:136-139 | after the assignment each cage holds every ordering of distinct digits that fills it and reaches its total, exactly once, and no list longer than the cage |
| KillerGrid.NewKGrid | killer.py:101-156 | `Grid.__init__` fails with KeyError exactly when a cell is off the board or some total is unreachable; otherwise the lookups index the cages, every cage holds exactly its orderings, rows, columns and groups have all nine digits free and no cell has a value |
| KillerGrid.FilterCages | killer.py:167-172 | filtering the cages listed under a region changes exactly the listed cages, by the region filter |
| KillerGrid.FilterListed | killer.py:167-172 | filtering only the listed cages gives the same cages as filtering every cage, since unlisted cages have no cell in the region |
| KillerGrid.RemoveByOutside | killer.py:54-94 | filtering a cage with no cell in the region leaves it unchanged |
| KillerGrid.PruneCages | killer.py:167-172 | the three cage loops of `setCell` leave every cage filtered by column, row and group and keep the lookups valid |
| KillerGrid.KSetCell | killer.py:158-172 | fails with KeyError or ValueError in the source's order exactly when x or y is off the board or the value is missing from its column, row or group list; on success it stores the value, removes one occurrence of it from exactly those three lists, shrinks every cage's lists to a subsequence and keeps the invariant |
| KillerGrid.SetCellPrunesExactly | killer.py:158-172 | after `setCell`, a list survives in a cage exactly when it was there and puts the value in no cell of the column, row or group, and then occurs as often as before |
| KillerGrid.SetCellFree | killer.py:158-165 | `setCell` takes exactly one copy of the value out of the column, row and group lists of (x, y), and leaves every other region's free digits unchanged |
| KillerGrid.SetCellLeavesOtherCages | killer.py:167-172 | a cage with no cell in the column, row or group is left unchanged |
| KillerSolver.SelectCage | killer.py:275-284 | returns no cage exactly when no cage has a non-empty list count below 99999; otherwise the first cage with a strictly smallest such count |
| KillerSolver.PlaceGuess | killer.py:286-289 | on success every guess digit is in its cell (the last write wins), every other cell keeps its value, every region's free digits lose exactly the guess digits placed in it, every cage keeps exactly the lists that put no `guess[i]` in the column, row or group of `cells[i]`, each as often as before, as a subsequence, and the invariant holds |
| KillerSolver.SetCellPruned | killer.py:158-172 | one `setCell` prunes every cage exactly as a placement loop of that one cell and value |
| KillerSolver.PrunedCompose | killer.py:286-289 | pruning by the first placement and then by the rest equals pruning by the whole loop |
| KillerSolver.FreeLostStep | killer.py:286-289 | one `setCell` followed by the rest of the loop takes from each region exactly the guess digits placed in it |
| KillerSolver.ClearLists | killer.py:291 | the chosen cage's lists become empty; the other cages, the values, the lookups and the free digits are unchanged |
| KillerSolver.ShrinkingLiveCount | killer.py:286-291 | when lists only shrink and a non-empty cage is emptied, fewer cages have lists left |
| KillerSolver.Solve | killer.py:273-291 | no cage is chosen exactly when none is selectable, and then the grid is unchanged; otherwise the chosen cage is the smallest, and on success its first list is placed, the lookups are unchanged, its lists are empty, all lists only shrank, every region lost exactly the placed digits, every other cage kept exactly the lists no placement strikes, each as often as before, and fewer cages have lists left |

## Left out

- Rendering and input are left out because they are terminal I/O. This covers both `GridRenderer` classes, `interactionLoop`, the curses setup and the `try`/`finally` main blocks.
- Logging, `json.load(open(sys.argv[1]))` and `sys.exit` are left out as I/O and process control. A solved grid is returned as `Solved` instead.
- The global `iterations` counter is left out because it is diagnostic only. So is `f2per`, which is float formatting.
- `_removeDuplicates` (killer.py:30-34) is left out. It is never called and uses `itertools`, which is never imported.
- Positions off the board or digits outside 1..9 in `normal.py`'s `setCell`, `unsetCell`, `removeCandidate` and `addCandidate` are preconditions. The source raises KeyError there, and its only callers never pass such arguments.
- NormalGrid.UnsetCell: clearing an empty cell is excluded by a precondition. The source looks up the flag of `None` and raises KeyError.
- NormalGrid.Fill: requires nine rows of nine entries and no entry above 9. The source raises IndexError or KeyError otherwise, with the grid partly filled.
- NormalSolver.Solve: the contract does not restate the order in which digits are tried. The body tries the raised flags of the current grid, 1 to 9, as the source does. The contract also does not state what the flags are after an exhausted search. As in the source, they need not match the entry flags.
- KillerGrid.KSetCell: on failure it returns only the error, not the partly changed grid. The source has by then written `values[x, y]`, and possibly some of the three `remove` calls.
- KillerSolver.PlaceGuess: states only what holds on success. It does not characterise which guesses make a `setCell` fail.
- KillerSolver.Solve: when a placement fails, the contract says nothing about the grid. The source leaves the earlier placements in place and propagates ValueError.
- The `None` state of candidate lists: the `removeBy...` methods handle it, but nothing in the source ever sets it. The grid invariant excludes it, which also excludes the TypeError `solve` would raise on it.
- Restriction reference counts are not modelled, because the code has none.
