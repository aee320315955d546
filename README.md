# A verified model of the pysudoku solver core

pysudoku solves Sudoku puzzles by constraint propagation and depth-first
search:

- A `Board` holds 81 `Cell`s and 27 `Group`s: nine blocks, nine rows and nine columns.
- Each cell holds a value, where none means the cell is open, and a candidate set (its domain).
- Each group holds a set of values. It starts as the union of its open members' domains, and it loses a value when that value is assigned to one of its cells.
- Assigning a value runs through the cell's value setter. The setter checks the move, commits it, and removes the value from the three groups of the cell and from every member's domain. An emptied domain raises `IllegalBoard`.
- `Board.reduce` repeats two steps while some open cell has a single candidate:
  - it assigns the singles;
  - it runs each group's naked-subset elimination (subsets of two and of three cells), and for blocks the pointing rule along rows and along columns.
- `Board.search` offers, for each kind of group, the first group with the fewest legal completions.
- A `Move` copies its parent's board, applies its marking, reduces, and records whether that raised.
- `Game.play` grows the search tree depth first and yields the moves whose board is complete.
- The su-format loader reads whitespace-separated puzzle files into a marking.

The project also models the repository's older top-level versions of these files: `sudoku.py`, `game.py` and `puzzle.py`.

The model is written in Dafny 4.11. Each source file keeps its own form:

| Module | File | Models |
|---|---|---|
| `Grid` | grid.dfy | The 81-cell layout and the 27 groups. Group `g` is block `g` for `g < 9`, row `g - 9` for `9 <= g < 18`, and column `g - 18` otherwise. It also proves the partition property. |
| `Cells` | cells.dfy | The value setter of `pysudoku/sudoku.py`, as a function over board states with an outcome: `Normal`, `Raised` (with `IllegalMove` or `IllegalBoard`), or `Crashed` (an uncaught error such as the `KeyError` of `set.remove`). |
| `Groups` | groups.dfy | `Group.reduce` and `Block.reduce`, as specification functions. |
| `Boards` | boards.dfy | The board-level functions: construction, copy, the scan for singles, `reduce`, `terminal`, `marking`, `search`, `combinations` and `__str__`. |
| `Sudoku` | sudoku.dfy | The imperative `Board` class. It holds arrays of cells and group sets. Its methods (setter, `Group.reduce`, `Block.reduce` with `apply`, `Board.reduce`, copy, equality) are each proved to end where the specification functions say. |
| `Moves` | moves.dfy | `Move.__init__` as a method on a fresh `Board` object. |
| `Games` | games.dfy | The search tree as an arena: a sequence of nodes with parent and child indices. It models `Move`, `Game.play`, `leaves`, `solutions`, `dead`, `depth`, `moves` and `Move.__str__`. It includes the `Game` class whose `Play`, `Depth` and `Moves` methods carry the source's loops. |
| `EarlyGames` | early_game.dfy | What `game.py` has that the package does not: the list-building `leafs` and the `stats` records. |
| `EarlySudoku` | early_sudoku.dfy | The older board of `sudoku.py`. Its groups narrow member domains by intersection (`update`), and its setter validates against the three group sets. |
| `Puzzles` | puzzle.dfy | Both `load_su` loaders. They are one loop over lines given as a sequence, and differ only in which tokens they skip. |
| `Text`, `Sets`, `Itertools`, `Sorting`, `Wrappers` | text.dfy, pylib.dfy | The Python library behaviour the core relies on: `strip`, `split`, `int`, `str`, `join`; `set` iteration of a singleton; `itertools.product` and `combinations`; a stable `sorted(key=len)`; `Option`. |

## Model

| member | source | states |
|---|---|---|
| Grid.Partition | pysudoku/sudoku.py:90-91 | A cell belongs to a group exactly when that group is one of the three (block, row, column) the cell refers back to. |
| Grid.PartitionCoords | pysudoku/sudoku.py:247-258 | Cell (i, j) lies in `rows[i]`, in `columns[j]` and in `blocks[3n+m]` with m = i/3 and n = j/3, following the order of the block comprehension. |
| Grid.GroupCellsDistinct | pysudoku/sudoku.py:247-254 | The nine members of any group are pairwise distinct cells. |
| Grid.PyIndex | pysudoku/sudoku.py:235-236 | Python list indexing on nine elements: -9..8 is accepted, with negative indices counting from the end; anything else is an IndexError. |
| Boards.FromCells | pysudoku/sudoku.py:126-127 | Each group's set starts as the union of its members' domains; the cells are kept. |
| Boards.FromCellsFacts | pysudoku/sudoku.py:244-258 | A board built from well-formed cells is consistent: every open cell's domain lies within each of its groups' sets. |
| Boards.Fresh | pysudoku/sudoku.py:244-258 | `Board()` has every cell open with domain 1..9 and every group set equal to 1..9. |
| Boards.CopyFacts | pysudoku/sudoku.py:274-275 | A copy has the same values and open cells. It is consistent and not stale, and it keeps every non-empty domain. Group sets are rebuilt from the copied cells. |
| Boards.CopyPlaced | pysudoku/sudoku.py:41-52 | Copying a board whose values are all placed and whose open cells all have candidates keeps every value placed. The cells are unchanged, and no member domain of a group holds its placed values, so neither does the group set rebuilt from them (pysudoku/sudoku.py:127). |
| Boards.Singles | pysudoku/sudoku.py:307-308 | The scan for singles keeps the board well formed whenever it does not crash. |
| Boards.SinglesFacts | pysudoku/sudoku.py:307-308 | After a scan that raises nothing: cells beyond the scan keep their value and keep a shrunken but still non-empty domain; assigned cells stay assigned; every single the scan reached is assigned. |
| Boards.SinglesConsistent | pysudoku/sudoku.py:67-79 | On a consistent board the scan never hits an uncaught error, and a normal end leaves the board consistent. |
| Boards.ReduceGroups | pysudoku/sudoku.py:311-312 | The group reductions never raise, and only a block can crash. They assign nothing, keep the group sets, and only shrink domains. |
| Boards.ReduceGroupsConsistent | pysudoku/sudoku.py:311-312 | On a consistent board the group reductions end normally and keep the board consistent. |
| Boards.ReduceSpec | pysudoku/sudoku.py:299-315 | `reduce` loops while an open cell has a single candidate; when it ends normally, no open cell has a single candidate. |
| Boards.PassShrinks | pysudoku/sudoku.py:304-315 | A pass never reopens a cell, and it assigns at least one when the board had a single. This is why the loop terminates. |
| Boards.ReduceConsistent | pysudoku/sudoku.py:299-315 | On a consistent board `reduce` either ends normally with a consistent board or raises IllegalBoard; it never lets another error escape. |
| Boards.SinglesPlaced | pysudoku/sudoku.py:307-309 | A scan for singles that ends normally keeps every value placed. |
| Boards.ReducePlaced | pysudoku/sudoku.py:299-315 | `reduce` that ends normally keeps every value placed. The group reductions assign nothing and change no group set. |
| Boards.ReduceOpen | pysudoku/sudoku.py:299-315 | `reduce` never reopens a cell; when it ends with the same open cells it assigned nothing and the group sets are unchanged. |
| Boards.MarkingFacts | pysudoku/sudoku.py:326-327 | The marking lists exactly the assigned cells with their values, in row-major order. |
| Boards.TerminalMarking | pysudoku/sudoku.py:292-297 | A board is terminal exactly when its marking has all 81 cells. |
| Boards.TerminalSolved | pysudoku/sudoku.py:292-297 | On a terminal board whose values are all placed, the nine cells of every group hold pairwise different values, which together are exactly 1..9: the board is a solution. |
| Boards.MarkingCount | pysudoku/sudoku.py:326-327 | Among the first n cells, the marked ones and the open ones add up to n. |
| Boards.RenderReadBack | pysudoku/sudoku.py:329-330 | `str(board)` splits on newlines into nine lines, each line splits on commas into nine fields, and field j of line r parses as the value of cell (r, j), with 0 for an open cell. |
| Boards.Elems | pysudoku/sudoku.py:149-150 | The values of a domain, in iteration order, are exactly its members in 1..9. |
| Boards.OpenCellsMembers | pysudoku/sudoku.py:142-145 | `open()` of a group yields open member cells of the group; it is empty exactly when every member is assigned. |
| Boards.OpenCellsDistinct | pysudoku/sudoku.py:142-145 | No cell appears twice among a group's open cells. |
| Boards.CombinationMember | pysudoku/sudoku.py:147-150 | A marking is in `combinations()` of a group exactly when it pairs the group's open cells, in order, with pairwise distinct values from their domains. |
| Boards.Live | pysudoku/sudoku.py:282-284 | The groups kept by the `if group.values` filters are exactly those with a non-empty set, in ascending order. |
| Boards.HeadFacts | pysudoku/sudoku.py:282-285 | A kind of group contributes a list to `search` exactly when one of its groups has a non-empty set, and that list is the kind's first shortest combination list. |
| Boards.SearchFacts | pysudoku/sudoku.py:281-285 | `search` returns a permutation of the kinds' heads, at most three, sorted by length. Equal lengths keep block, row, column order. Each list is the first shortest of one kind. |
| Boards.SearchLegal | pysudoku/sudoku.py:281-285 | Every marking `search` offers is legal on the board: distinct open cells, each given a value from its domain. |
| Cells.AssignSpec | pysudoku/sudoku.py:67-79 | The setter for a non-zero value. It keeps the board well formed, and every other cell keeps its value and only loses candidates. Group sets only shrink. On a normal end the cell holds v with no domain, and no other non-empty domain was emptied. |
| Cells.AssignIllegalMove | pysudoku/sudoku.py:69-71 | The setter raises IllegalMove exactly when the cell is open and v is not in its domain, and it then leaves the board untouched. |
| Cells.AssignOpen | pysudoku/sudoku.py:67-79 | Assigning a candidate to an open cell of a consistent board never crashes. It raises IllegalBoard exactly when a peer's domain is {v}; otherwise the result is the assigned board, which is consistent. |
| Cells.StripGroupsFacts | pysudoku/sudoku.py:74-79 | When every group still offers v, the group loop never crashes. It raises exactly when a member domain is {v}; otherwise every member loses v and every group set loses v. |
| Cells.StripGroupsNonEmpty | pysudoku/sudoku.py:76-79 | The group loop never empties a domain without raising IllegalBoard. |
| Cells.AssignRaises | pysudoku/sudoku.py:72-79 | Committing the value first does not change which peers trigger IllegalBoard: only peers other than the cell itself can. |
| Cells.AssignKeepsConsistent | pysudoku/sudoku.py:72-79 | The fully assigned board is consistent again. |
| Cells.AssignAssigned | pysudoku/sudoku.py:69-75 | An assigned cell is not checked against its domain (no IllegalMove). When v is no longer in its block's set, the `remove` raises an uncaught KeyError. |
| Cells.AssignTwice | pysudoku/sudoku.py:69-75 | Assigning the same value to the same cell a second time always crashes: the block set no longer has v. |
| Cells.AssignNormal | pysudoku/sudoku.py:67-79 | Any assignment that ends normally, to an open or to an assigned cell, found v in the sets of all three of the cell's groups, and its result is the assigned board. |
| Cells.PlacedAssign | pysudoku/sudoku.py:72-79 | Assigning a value that the cell's three groups still offer keeps every placed value placed, the new one included. A placed value is a digit that its groups no longer offer, that no member's domain holds, and that no other member holds. |
| Cells.DuplicateRejected | pysudoku/sudoku.py:69-75 | On a board whose values are placed, a value another cell of one of k's groups already holds is never assigned normally to k. An open k raises IllegalMove and the board is left untouched. |
| Groups.OpenAmong | pysudoku/sudoku.py:142-145 | `open(n)`: exactly the open members, in order, whose domains have n values (any size when n is None). |
| Groups.PairFires | pysudoku/sudoku.py:161 | For a pair, the `reduce(operator.eq, ...)` test is set equality of the two domains. |
| Groups.TripleNeverFires | pysudoku/sudoku.py:161 | For a triple, the test compares a bool with a set and never fires, so no triple ever eliminates. |
| Groups.Eliminate | pysudoku/sudoku.py:162-165 | Each member outside the subset whose domain meets P loses P; every other cell is untouched. The set collects what those cells keep. |
| Groups.ReduceTuples | pysudoku/sudoku.py:160-165 | Trying the subsets in turn only shrinks domains, keeps values, and touches nothing outside the group. |
| Groups.FiredSubsetClears | pysudoku/sudoku.py:160-165 | After a subset fires, every other member's final domain is disjoint from the subset's domain. |
| Groups.TriplesInert | pysudoku/sudoku.py:157-166 | The three-cell round changes nothing and adds nothing to the result. |
| Groups.GroupReduceSpec | pysudoku/sudoku.py:152-171 | `Group.reduce` keeps values and group sets and only shrinks domains. |
| Groups.GroupReduceFacts | pysudoku/sudoku.py:152-171 | `Group.reduce` equals its two-cell round, keeps the board consistent, and leaves cells outside the group as they were. |
| Groups.BlockReduceSpec | pysudoku/sudoku.py:181-211 | `Block.reduce` never raises. When it does not crash, it keeps values and group sets and only shrinks domains. |
| Groups.BlockReduceNoCrash | pysudoku/sudoku.py:186-192 | On a consistent board every candidate of a block cell is a key of the tallies, so `Block.reduce` never hits the KeyError. |
| Groups.BlockReduceFacts | pysudoku/sudoku.py:181-211 | On a consistent board, the block's own cells end as the naked-subset round left them. Every other cell loses exactly its pointing loss. The board stays consistent and the group sets are unchanged. |
| Groups.NoCandidateNoLoss | pysudoku/sudoku.py:189-203 | A value no block cell can take confines nothing: no cell loses it. |
| Sudoku.TallyConfined | pysudoku/sudoku.py:186-195 | The values a tally confines to a single row (or column) are exactly those the block rule confines there. |
| Sudoku.PointingAxes | pysudoku/sudoku.py:194-206 | `apply(rowvals, 'row')` followed by `apply(colvals, 'column')` is the block rule. The removed values of the two calls together are the rule's removed set. |
| Sudoku.Board.Over | pysudoku/sudoku.py:244-258 | `Board(cells)` builds fresh arrays whose state is the board over the given cells. |
| Sudoku.Board.constructor | pysudoku/sudoku.py:244-258 | `Board()` builds fresh arrays whose state is the fresh board. |
| Sudoku.Board.Copy | pysudoku/sudoku.py:274-275 | `copy(board)` returns a board sharing no array with the original, whose state is the copy of the original's. |
| Sudoku.Board.Equals | pysudoku/sudoku.py:261-266 | `==` holds exactly when every cell has the same value. |
| Sudoku.Board.Assign | pysudoku/sudoku.py:67-79 | The setter on the arrays ends with the outcome and the state AssignSpec gives. |
| Sudoku.Board.StripEach | pysudoku/sudoku.py:74-79 | The loop over the cell's three groups ends with the outcome and board StripGroups gives, stopping at the first group that fails or raises. |
| Sudoku.Board.StripGroup | pysudoku/sudoku.py:75-79 | One group drops the value (failing when it is not there) and strips it from its open members, raising `IllegalBoard` when one is left empty, as StripInGroup says. |
| Sudoku.Board.StripMembers | pysudoku/sudoku.py:76-79 | The inner loop of the setter changes the cells as the specification of one group step says, and reports whether a domain emptied. |
| Sudoku.Board.GroupReduce | pysudoku/sudoku.py:152-171 | `Group.reduce` on the arrays ends with GroupReduceSpec's board and returned set. |
| Sudoku.Board.NakedPass | pysudoku/sudoku.py:158-166 | One round of `Group.reduce` on the arrays matches the specification for that subset size. |
| Sudoku.Board.EachTuple | pysudoku/sudoku.py:161-166 | Trying every tuple of one round on the arrays leaves the cells and the eliminated values ReduceTuples gives. |
| Sudoku.Board.EliminateFrom | pysudoku/sudoku.py:162-166 | The innermost loop matches Eliminate: the cells and the collected set. |
| Sudoku.Board.Tally | pysudoku/sudoku.py:186-192 | The tally succeeds exactly when no KeyError arises, and it then builds the tallies of the specification. |
| Sudoku.Board.TallyCell | pysudoku/sudoku.py:190-192 | One cell's values either all gain its row and column, or the tally stops on a value that is not a key. |
| Sudoku.Board.Apply | pysudoku/sudoku.py:194-203 | Consuming the tally in any order leaves the cells and the removed set of the specification. |
| Sudoku.Board.ApplyKey | pysudoku/sudoku.py:196-203 | Handling one tally key extends the cells and removed set of the specification by that key. |
| Sudoku.Board.ApplyValue | pysudoku/sudoku.py:195-203 | One value with a single line clears that line outside the block; any other value changes nothing. |
| Sudoku.Board.ClearLine | pysudoku/sudoku.py:199-202 | The line loses v outside the block, and the method reports whether any cell did. |
| Sudoku.Board.ClearAlong | pysudoku/sudoku.py:197-202 | Walking the block's cells on the line clears the line exactly once. |
| Sudoku.Board.BlockReduce | pysudoku/sudoku.py:181-211 | `Block.reduce` on the arrays ends with the status, board and returned set that BlockReduceSpec gives. |
| Sudoku.Board.ReduceSingles | pysudoku/sudoku.py:307-309 | The scan for singles on the arrays ends as Singles says. |
| Sudoku.Board.SingleCell | pysudoku/sudoku.py:307-309 | Visiting one cell assigns its only value when it has one, ending as SingleAt says. |
| Sudoku.Board.ReduceGroupsPass | pysudoku/sudoku.py:311-312 | The chain of group reductions on the arrays ends as ReduceGroups says. |
| Sudoku.Board.ReduceEach | pysudoku/sudoku.py:311-312 | Reducing the listed groups in order ends as ReduceGroups says for that list. |
| Sudoku.Board.ReduceOne | pysudoku/sudoku.py:312 | Reducing one group ends with the outcome and board GroupStep gives. |
| Sudoku.Board.FindSingle | pysudoku/sudoku.py:314 | `next(self.open(1), None)` finds a cell exactly when some open cell has a single candidate. |
| Sudoku.Board.Reduce | pysudoku/sudoku.py:299-315 | `Board.reduce` on the arrays ends with the outcome and board ReduceSpec gives. |
| Moves.Place | pysudoku/game.py:91-93 | Placing the marking through the setter ends as ApplyMarking says. |
| Moves.Build | pysudoku/game.py:84-97 | The move's board is fresh. Its status and state are those of MoveSpec: valid, invalid (exception caught), or an escaping error. |
| Games.CellAt | pysudoku/sudoku.py:235-236 | `board(row, column)` names the cell Index(row, column) on the board and never an index outside. |
| Games.ApplyMarking | pysudoku/game.py:91-93 | Applying a marking keeps the board well formed whenever it does not crash. |
| Games.StartBoard | pysudoku/game.py:89 | The starting board, whether a copy or fresh, is well formed and consistent. |
| Games.MoveSpec | pysudoku/game.py:84-97 | A move's board is well formed whenever no error escapes. |
| Games.ApplyLegal | pysudoku/game.py:91-93 | Applying a legal marking to a consistent board never crashes, and a normal end assigns each entry. |
| Games.ChildRank | pysudoku/game.py:84-97 | A child built from a legal marking never lets an error escape, and a valid child ranks strictly below its parent. The rank is twice the number of open cells, plus one for a stale board (a group with a non-empty set but no open cell). This is the measure that makes `play` terminate. |
| Games.ApplyPlaced | pysudoku/game.py:91-93 | Applying any marking, legal or not, that ends normally keeps every value placed. |
| Games.MovePlaced | pysudoku/game.py:84-97 | Consider a valid move built from scratch, or from a parent whose values are placed and whose open cells all have candidates. Its board has every value placed. When that board is terminal, every group holds each digit 1..9 exactly once. |
| Games.Attempt | pysudoku/game.py:76-77 | An attempt appends exactly one node, a child of the played move carrying the marking, with the validity and board MoveSpec gives. A valid parent's child has a smaller rank. |
| Games.PlaySpec | pysudoku/game.py:69-81 | `play` only adds nodes and only appends children, keeping the tree well formed. |
| Games.PlayYields | pysudoku/game.py:69-81 | `play(move)` yields the move itself when its board is terminal. Otherwise it yields, in creation order, exactly the new moves with a terminal board whose parent is valid. |
| Games.PlayExplores | pysudoku/game.py:75-81 | The new children of the move are one attempt per marking of the search lists, in order. Each is explored when the move is valid and left childless otherwise. |
| Games.PlayFresh | pysudoku/game.py:69-81 | A move played from scratch ends with its whole subtree as `play` would build it. |
| Games.RootMove | pysudoku/game.py:84-97 | `Move(marking)` has no parent, the given marking, no children and a well-formed board. |
| Games.RootPlaceable | pysudoku/game.py:84-97 | A marking of distinct cells on the board with values 1..9 builds a root move; it is valid exactly when applying and reducing raise nothing. |
| Games.RootArena | pysudoku/game.py:6-8 | A game over a root move is a well-formed tree holding that move alone. |
| Games.PathFacts | pysudoku/game.py:33-47 | The path to a move has depth + 1 moves. It starts at a parentless move and ends at the move, and each move on it is the parent of the next. |
| Games.Leaves | pysudoku/game.py:15-23 | `leaves` names only moves of the tree. |
| Games.LeavesMember | pysudoku/game.py:15-23 | The leaves below a move are exactly the childless moves that descend from it. |
| Games.SolutionsDead | pysudoku/game.py:25-31 | The solutions are exactly the childless moves with a terminal board, and the dead ends the childless invalid ones. |
| Games.EntryRoundTrip | pysudoku/game.py:102-103 | An entry's text `(r,c)=v` is one word without whitespace and parses back to the entry. |
| Games.MoveRoundTrip | pysudoku/game.py:102-103 | A move's text parses back to its marking. |
| Games.Game.constructor | pysudoku/game.py:6-8 | A game holds its root move alone. |
| Games.Game.Play | pysudoku/game.py:69-81 | Playing a move grows the tree and returns the yields exactly as PlaySpec says. |
| Games.Game.PlayLists | pysudoku/game.py:75-81 | The outer loop over the search lists matches its specification. |
| Games.Game.PlayMarkings | pysudoku/game.py:76-81 | The inner loop over one list's markings matches its specification. |
| Games.Game.PlayStep | pysudoku/game.py:76-81 | One attempt, appended and played unless the played move is invalid, matches StepSpec. |
| Games.Game.Depth | pysudoku/game.py:33-39 | The parent-following loop returns the depth of the move. |
| Games.Game.Moves | pysudoku/game.py:41-47 | The collect-then-reverse loop returns the path from the root to the move. |
| EarlyGames.CollectLeafs | game.py:17-22 | `leafs_` appends the leaves below the move to the list, left to right. |
| EarlyGames.Leafs | game.py:13-25 | `leafs` is the list of leaves of the whole tree; a move is in it exactly when it is childless. |
| EarlyGames.PathFromRoot | game.py:43-49 | The path of any move of the game starts at the root. |
| EarlyGames.StatsFacts | game.py:51-67 | Each `stats` record belongs to a solution. Its depth counts the move texts after the first; `init` is the root's text; each later text parses back to the marking of the move at that place on the path. |
| EarlySudoku.Start | sudoku.py:122-139 | The board over fresh cells is well formed: every cell and group set is 1..9. |
| EarlySudoku.NarrowFacts | sudoku.py:33-34 | Each member whose set is not None is intersected with the group's set; everything else is unchanged. |
| EarlySudoku.UpdateSpec | sudoku.py:31-34 | `update(v)` succeeds exactly when the group set holds v; the group set then loses v and no other set changes. |
| EarlySudoku.UpdateFacts | sudoku.py:31-34 | After `update(v)`, the group set no longer holds v and every member is narrowed to it. |
| EarlySudoku.SetSpec | sudoku.py:58-65 | The setter succeeds exactly when `validate_move` accepts the value, and keeps the board well formed. |
| EarlySudoku.SetFacts | sudoku.py:62-65 | A legal move sets the cell and clears its set; the three group sets lose v and no other group set changes. |
| EarlySudoku.SetCells | sudoku.py:62-65 | A legal move keeps every other value. Domains only shrink. A cell in one of the three groups ends within that group's set and without v, and cells outside them are untouched. |
| EarlySudoku.SetShrinks | sudoku.py:58-65 | Group sets only shrink under a move. |
| EarlySudoku.StartPlaced | sudoku.py:122-139 | On the starting board no value is placed, so the placement invariant holds trivially. |
| EarlySudoku.SetPlaced | sudoku.py:58-65 | Moves keep the invariant: a placed value is gone from the sets of its cell's groups. |
| EarlySudoku.NoSecondPlacement | sudoku.py:51-52 | On a board reached by moves, a value placed in a group is rejected for every cell of that group. |
| EarlySudoku.EarlyBoard.constructor | sudoku.py:122-139 | The board starts with fresh arrays in the starting state. |
| EarlySudoku.EarlyBoard.ValidateMove | sudoku.py:51-52 | `validate_move` accepts exactly the values in the block, column and row sets. |
| EarlySudoku.EarlyBoard.Update | sudoku.py:31-34 | `update` on the arrays succeeds exactly when UpdateSpec does, ends in its state, and changes nothing on failure. |
| EarlySudoku.EarlyBoard.SetValue | sudoku.py:58-65 | The setter on the arrays succeeds exactly when SetSpec does, ends in its state, and changes nothing for an illegal move. |
| EarlySudoku.EarlyBoard.Equals | sudoku.py:145-150 | `==` holds exactly when every cell has the same value (cells compare by value only, sudoku.py:45-46). |
| Puzzles.PackageBlankSubstrings | pysudoku/puzzle.py:12 | `token not in "_0."` is a substring test: the package skips exactly the substrings of `_0.`, the empty one included. |
| Puzzles.EarlyBlankNarrower | puzzle.py:8 | The older loader skips only `_` and `0`, both of which the package skips too; `.` is skipped by the package alone. |
| Puzzles.Read | pysudoku/puzzle.py:12-13 | A token is skipped, read as the number `int` gives, or is a token on which `int` raises. |
| Puzzles.TokenEntries | pysudoku/puzzle.py:11-13 | A row loads exactly when none of its tokens makes `int` raise. |
| Puzzles.TokenEntriesFacts | pysudoku/puzzle.py:11-13 | A row's entries are exactly its number tokens, each at the token's column with its value, with columns increasing. Placeholders count toward the column. |
| Puzzles.Rows | pysudoku/puzzle.py:10-13 | Every entry names a row that exists. |
| Puzzles.LoadSu | pysudoku/puzzle.py:4-15 | The package loader returns the marking of the file in the package dialect, or None where `int` raises. |
| Puzzles.EarlyLoadSu | puzzle.py:1-14 | The older loader, with its hand-kept row and column counters, returns the marking in the older dialect. |
| Puzzles.Load | pysudoku/puzzle.py:8-15 | The shared loop returns the marking of the lines in the given dialect. |
| Puzzles.ReadLine | puzzle.py:6-10 | The token loop of one line returns that line's entries. |
| Puzzles.BlankLineIgnored | pysudoku/puzzle.py:10 | A blank or whitespace-only line anywhere in the file changes nothing, because it is filtered out before rows are numbered. |
| Puzzles.MarkingOrdered | pysudoku/puzzle.py:10-13 | Loaded rows list their entries in reading order: by row, then by column. |
| Puzzles.LoadOrdered | pysudoku/puzzle.py:4-15 | The loaders' results are in reading order. |
| Puzzles.DialectsAgree | puzzle.py:8 | The two loaders read a file alike unless it holds `.`, `_0`, `0.` or `_0.`. |
| Puzzles.LoadGridText | pysudoku/puzzle.py:4-15 | Writing a grid whose rows are non-empty one line per row, 0 for an empty cell, and loading it gives back the grid's non-zero clues with their coordinates, in both dialects. |
| Puzzles.PrintedToken | pysudoku/puzzle.py:12-13 | A printed integer is a placeholder exactly when it is 0 and reads back as itself. |
| Text.StripFacts | pysudoku/puzzle.py:10 | `strip` gives the empty string exactly for whitespace-only input, and otherwise no whitespace at either end. |
| Text.Words | pysudoku/puzzle.py:11 | `split()` gives non-empty words without whitespace. |
| Text.WordsJoin | pysudoku/puzzle.py:11 | The words of single-space-joined words are those words. |
| Text.SplitJoin | pysudoku/sudoku.py:329-330 | Splitting on a separator undoes joining on it when no piece holds it. |
| Text.ParseIntToString | pysudoku/sudoku.py:330 | `int(str(v)) == v` for every integer. |
| Itertools.ProductMember | pysudoku/sudoku.py:150 | The product's tuples are exactly those drawing entry i from factor i. |
| Itertools.CombinationsShape | pysudoku/sudoku.py:160 | Every k-combination has k entries drawn from the list. |
| Itertools.PairsComplete | pysudoku/sudoku.py:160 | Every ordered pair of positions is a 2-combination. |
| Sorting.SortFacts | pysudoku/sudoku.py:282-285 | `sorted(key=len)` returns a permutation ordered by length, stable on equal lengths. |
| Sorting.SortHead | pysudoku/sudoku.py:285 | The head of the sorted list is the first shortest element. |

## Left out

- Complexity and logarithms: `Board.complexity` (pysudoku/sudoku.py:277-279, 302) and the `stats` methods that report it (pysudoku/game.py:49-67) use floating point and only feed diagnostics.
- The `Counter` statistics of groups and boards (pysudoku/sudoku.py:129, 166, 169, 203, 209, 305, 309, 317-319) are diagnostics with no effect on solving.
- Games.NonZero: the setter's unassignment branch (pysudoku/sudoku.py:80-87) is not modelled, so every marking is required to be non-zero. A loaded file can reach that branch: `load_su` keeps a token such as `00`, `+0`, `-0` or `0_0` as a clue, since the token is not one of the skipped strings (pysudoku/puzzle.py:12-13) and `int` reads it as 0. The move then assigns 0 to the cell (pysudoku/game.py:91-93), and on an open cell the source adds None to its three groups' sets and sets its domain to {None}. The precondition NonZero excludes such files.
- `Board.moves` (pysudoku/sudoku.py:321-323) reads an attribute that is never set and is not modelled; nor are `__hash__`, `__repr__` and the `Coord`/`str` helpers.
- `load_ipuz` is not modelled. It reads JSON, and its `append` call is given two arguments.
- File I/O: the loaders take the file as a sequence of lines, and universal-newline translation is not modelled.
- Text.ParseInt: `int()` is modelled for ASCII decimal digits with an optional sign, surrounding whitespace, and single underscores between two digits; Unicode digits are not modelled.
- Python generators become sequences: `leaves`, `open` and `play` are modelled by the full lists they yield. Interleaving a consumer with a partly run generator is not captured.
- Boards.Elems: takes a domain's values in ascending order, whereas CPython's set iteration order is an implementation detail. It only fixes the order in which product and combination lists appear. `Apply` is stated for its dict's key set, so it does not depend on the order; the tally does not depend on it either.
- Games.Game.Play: builds child moves through the MoveSpec function inside Attempt rather than by calling the Moves.Build method, because the arena holds board states as values rather than Board objects.
- `game.py`'s `depth`, `moves`, `play`, `Move` and `Move.__str__` follow `pysudoku/game.py` and are modelled once in Games, over the package board. Two differences are not modelled. `game.py:1` imports `IllegalBoard` from the top-level `sudoku.py`, which defines no such class (only `IllegalMove`, sudoku.py:7), so the module as written fails with ImportError. And its `moves` returns a list (game.py:49) where the package returns a reversed iterator; both are modelled as the same sequence.
- The older `sudoku.py` `Move`, `Game` and the module-level script (sudoku.py:155-177) are not modelled, and neither is the `IllegalMove` instance's failure to be raised: both cannot run as written (`board.moves()` is a call on a list, and `IllegalMove` is not an exception class). EarlyBoard.SetValue reports the rejected move as `false` instead.
- The older board's nested block list (sudoku.py:135) is flattened to the same 27 groups.
- Games.MovePlaced: the placement invariant is carried from a parent to its children only when every open cell of the parent still has a candidate. A group reduction that empties an open cell's domain raises nothing (pysudoku/sudoku.py:165 and 201). `copy` then gives that cell all nine values again (pysudoku/sudoku.py:43), and the rebuilt group sets can offer values that are already placed. So the model does not state that every valid move of a game tree has its values placed.
- EarlySudoku.SetPlaced: the invariant covers the "not accepted again" property only, not a full consistency statement about the older board.
- `games.py`, `play.py`, `scripts/` and `setup.py` are drivers and packaging, not part of this model.
- Puzzles.LoadSu: returns a sequence where the source returns a tuple.
