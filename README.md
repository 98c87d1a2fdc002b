# Sudoku CSP constraint model

A Dafny model of the constraint layer of a Java Sudoku solver (package
`sudoku.csp`). The solver treats the puzzle as a constraint-satisfaction
problem. The model covers these parts:

- **`Tile`**: a cell with a value, an assigned flag, a box number, a set of
  candidate values (its domain) and a counter of unassigned neighbours.
- **`TileComparator`**: orders tiles by domain size.
- **`SudokuBoard`**: numbers every tile with its 3x3 box, keeps a list of
  blank tiles per box and a set of unassigned tiles, computes neighbours,
  picks the most constrained tiles, runs the initial pruning pass and checks
  a filled board.
- **`SudokuSolver`**: keeps a queue of blank tiles ordered by domain size
  (`mrv`), prunes by forward checking, picks the tiles with the fewest
  remaining values and breaks ties by the neighbour counter.

Tiles are objects whose fields are updated in place. `Tile`,
`SudokuBoard` and `SudokuSolver` are Dafny classes.

- The board (`List<List<Tile>>`) is a `const seq<seq<Tile>>`, because its
  shape never changes.
- The two `section` maps are written only by the constructors, so they are
  `const` maps from box number to a sequence of tiles.
- The `unassigned` set and the solver's priority queue are `var` fields of
  type `set<Tile>`.
- A tile's row and column are `const` fields, so no method can change them.
- Every setter's `modifies` clause names only its own field, so it can change
  nothing else.
- Getters are plain field reads.

Java exceptions become result values:

- `Outcome` (`Pass` or `Fail`) for `verify` and `forwardCheck`.
- `Result` for `findMostRestrained`.
- `Option` for `getMostContrainedVariable`.

A failing call leaves the state as it was when the Java code threw.

Modules, one per file:

- `Wrappers`: `wrappers.dfy`.
- `Tiles`: `tile.dfy`.
- `TileComparator`: `tile_comparator.dfy`.
- `Grid`: `grid.dfy`. It holds the 9x9 shape, the board order and the box
  numbering that both classes share.
- `Solver`: `sudoku_solver.dfy`.
- `Board`: `sudoku_board.dfy`.

Behaviour of the code that the model keeps:

- **Tie-break.** `findMostRestraining` keeps the tile with the *fewest*
  unassigned neighbours and breaks ties by smallest (row, column). The usual
  degree heuristic prefers the largest count. The model follows the code:
  `Solver.Precedes` is that order.
- **Box lists.** The box lists hold only the tiles that were blank at
  construction. As a result:
  - `getNeighbours` returns the other tiles of the row and column plus the
    blank tiles of the box: at most 20 tiles, fewer when the box has clues
    off the row and column.
  - `verifySec` checks only those blank tiles.
- **Solver box lists.** The solver creates a box's list only when it meets
  the box's first blank tile. The lists live in a `HashMap` filled through
  `getOrDefault`. For a box without blanks, `forwardCheck` has already pruned
  the row and the column when its lookup of the box list finds nothing. It
  then fails with `NullSectionList`.
- **`findMostRestrained`.**
  - It polls an empty queue when the queue is empty.
  - It peeks into an empty queue when every queued tile ties at the least
    domain size.
  - The model has no precondition; it returns `Err(NullPoll)` or
    `Err(NullPeek)` in those cases.
- **No search.** The code has no backtracking search, value ordering or step
  budget, and the model adds none.

## Model

Source paths are relative to the repository root.

| member | source | states |
|---|---|---|
| Tiles.Range | src/main/java/sudoku/csp/Tile.java:30-32 | the set holds exactly the integers lo..hi |
| Tiles.FullDomain | src/main/java/sudoku/csp/Tile.java:13-32 | the initial domain of a blank tile holds exactly 1..MAX with MAX = 9 |
| Tiles.Tile.constructor | src/main/java/sudoku/csp/Tile.java:26-38 | value, row and column as given; value 0 gives an unassigned tile with domain exactly {1..9}; any other value gives an assigned tile with an empty domain |
| Tiles.Tile.SetAssigned | src/main/java/sudoku/csp/Tile.java:44-46 | the assigned flag becomes the argument and no other field changes |
| Tiles.Tile.MarkAssigned | src/main/java/sudoku/csp/Tile.java:48-50 | the tile becomes assigned and no other field changes |
| Tiles.Tile.RemoveDomain | src/main/java/sudoku/csp/Tile.java:64-66 | the domain becomes the old domain minus {v}; nothing else changes |
| Tiles.Tile.SetSecNo | src/main/java/sudoku/csp/Tile.java:68-70 | the box number becomes the argument and no other field changes |
| Tiles.Tile.SetVal | src/main/java/sudoku/csp/Tile.java:76-78 | the value becomes the argument and no other field changes |
| Tiles.Tile.AddDomain | src/main/java/sudoku/csp/Tile.java:80-82 | the domain becomes the old domain plus {v}; nothing else changes |
| Tiles.Tile.DecrementNumUNeighbours | src/main/java/sudoku/csp/SudokuSolver.java:139 | the unassigned-neighbour counter, missing from the Java tile class, drops by exactly one |
| Tiles.RemoveDomainTwice | src/main/java/sudoku/csp/Tile.java:64-66 | removing the same value twice leaves the same domain as removing it once |
| Tiles.RemoveThenAddDomain | src/main/java/sudoku/csp/Tile.java:64-82 | removing a value that is in the domain and adding it back restores the original domain |
| TileComparator.Compare | src/main/java/sudoku/csp/TileComparator.java:8-10 | the result is negative, zero or positive exactly when the first domain is smaller than, equal in size to, or larger than the second |
| TileComparator.CompareAntisymmetric | src/main/java/sudoku/csp/TileComparator.java:9 | swapping the arguments negates the result, and a tile compares equal to itself |
| TileComparator.CompareTransitive | src/main/java/sudoku/csp/TileComparator.java:9 | "not after" and "strictly before" are both transitive, so the order is a valid queue order |
| TileComparator.CompareTotal | src/main/java/sudoku/csp/TileComparator.java:9 | any two tiles are ordered one way or the other |
| TileComparator.LeastExists | src/main/java/sudoku/csp/SudokuBoard.java:121 | a nonempty set of domain sizes has a least element, so the stream minimum exists |
| TileComparator.Least | src/main/java/sudoku/csp/SudokuBoard.java:121 | the result is in the set and no element is smaller |
| TileComparator.MinDomainSize | src/main/java/sudoku/csp/SudokuBoard.java:120-121 | some tile of the nonempty set has this domain size and none has a smaller one |
| TileComparator.HeadExists | src/main/java/sudoku/csp/TileComparator.java:8-10 | a nonempty queue ordered by the comparator has a head, and every head has the least domain size |
| Grid.JavaDiv | src/main/java/sudoku/csp/SudokuBoard.java:68 | Java integer division rounds toward zero: the remainder a - q*d lies in 0..d-1 for a nonnegative a and in -(d-1)..0 for a negative one |
| Grid.CalculateSectionNo | src/main/java/sudoku/csp/SudokuBoard.java:67-69 | for a row and column in 0..8 the box number is in 0..8, and it encodes the block row (number / 3) and the block column (number % 3); `calcaluateSectionNo` of the solver at src/main/java/sudoku/csp/SudokuSolver.java:164-166 is the same function |
| Grid.SameSectionIff | src/main/java/sudoku/csp/SudokuBoard.java:67-69 | two cells on the board get the same box number if and only if they lie in the same 3x3 block |
| Grid.Cells | src/main/java/sudoku/csp/SudokuBoard.java:58-64 | the tiles in the order the board is walked: 81 of them, each at its own row and column of the grid |
| Grid.CellsContain | src/main/java/sudoku/csp/SudokuBoard.java:58-64 | the walk visits the tile at every row and column |
| Grid.CellsCover | src/main/java/sudoku/csp/SudokuBoard.java:58-64 | every tile of the grid is one of the visited tiles |
| Grid.CellsDistinct | src/main/java/sudoku/csp/SudokuBoard.java:58-64 | the walk visits no tile twice |
| Grid.Column | src/main/java/sudoku/csp/SudokuBoard.java:85-91 | column col, top to bottom: its i-th tile is the grid's tile at row i |
| Grid.Blanks | src/main/java/sudoku/csp/SudokuBoard.java:37 | exactly the walked tiles that are not assigned |
| Grid.SectionList | src/main/java/sudoku/csp/SudokuBoard.java:37-41 | the list of box k holds only blank walked tiles of box k, and holds all of them |
| Grid.SectionListSnoc | src/main/java/sudoku/csp/SudokuBoard.java:37-40 | walking one more tile appends it to the list of its box when it is blank, and leaves every other list alone |
| Grid.ListsSoFarStep | src/main/java/sudoku/csp/SudokuSolver.java:26-29 | the `getOrDefault` update of one blank tile (creating the list on its first blank) extends the box lists by that tile, and only boxes with a blank have a list |
| Grid.ListsSoFarSound | src/main/java/sudoku/csp/SudokuSolver.java:26-29 | lists built from a walk without repeats hold no tile twice, and hold only blank walked tiles of their own box |
| Grid.SectionListDistinct | src/main/java/sudoku/csp/SudokuBoard.java:37-41 | a box list built from a walk without repeats holds no tile twice |
| Solver.PrecedesTransitive | src/main/java/sudoku/csp/SudokuSolver.java:75-82 | the tie-break order is transitive |
| Solver.PrecedesTotal | src/main/java/sudoku/csp/SudokuSolver.java:75-82 | any two tiles are ordered one way or the other by the tie-break |
| Solver.PrecedesAntisymmetric | src/main/java/sudoku/csp/SudokuSolver.java:75-82 | two tiles that each come first tie on the counter and sit at the same row and column |
| Solver.PrecedesTransitiveAll | src/main/java/sudoku/csp/SudokuSolver.java:75-82 | a tile that comes before b comes before every tile that b comes before |
| Solver.PrunedToEffect | src/main/java/sudoku/csp/SudokuSolver.java:133-140 | pruning never grows a domain; a blank tile that is reached loses v and nothing else; a tile that is not reached keeps its domain and counter |
| Solver.PrunedToCompose | src/main/java/sudoku/csp/SudokuSolver.java:119-123 | two rounds of pruning with the same value equal one round with the reach counts added |
| Solver.NumberTile | src/main/java/sudoku/csp/SudokuSolver.java:23-33 | the tile gets its box number; a blank tile is appended to its box's list (created if missing) and queued; a clue changes neither |
| Solver.IterateBoard | src/main/java/sudoku/csp/SudokuSolver.java:168-174 | after the walk every tile carries its box number, the lists are exactly the blank tiles per box in walk order (only boxes with blanks have a list), and the queue is exactly the blank tiles |
| Solver.SudokuSolver.constructor | src/main/java/sudoku/csp/SudokuSolver.java:21-34 | every tile's box number is set; a box has a list if and only if it has a blank tile, and the list holds exactly its blank tiles in board order; the queue holds exactly the blank tiles, so clues are in neither |
| Solver.SudokuSolver.RemoveDomain | src/main/java/sudoku/csp/SudokuSolver.java:133-140 | a blank tile loses v and is queued again, so a queued tile stays queued and the queue holds the same tiles; an assigned tile keeps its domain and the queue is unchanged; the counter drops by one either way |
| Solver.SudokuSolver.ApplyConstraintsRow | src/main/java/sudoku/csp/SudokuSolver.java:153-162 | exactly the tiles of the row outside box sec are pruned of v, once each; the queue only gains the blank tiles reached, and holds all of them |
| Solver.SudokuSolver.ApplyConstraintsCol | src/main/java/sudoku/csp/SudokuSolver.java:142-151 | exactly the tiles of the column outside box sec are pruned of v, once each; the queue only gains the blank tiles reached, and holds all of them |
| Solver.SudokuSolver.ApplyConstraintsSec | src/main/java/sudoku/csp/SudokuSolver.java:125-131 | fails with a null list, changing nothing, when box sec has no list; otherwise exactly the tiles of its list are pruned of v, once each |
| Solver.SudokuSolver.ForwardCheck | src/main/java/sudoku/csp/SudokuSolver.java:119-131 | each tile is pruned once per pass that reaches it (row outside the box, column outside the box, the box list); domains only shrink; v leaves every reached blank tile; every other tile, the origin included, keeps its domain; fails with a null list, after the row and column passes, when the box has no list |
| Solver.SudokuSolver.FindMostRestrained | src/main/java/sudoku/csp/SudokuSolver.java:90-111 | empty queue: null poll; otherwise it fails exactly when all queued tiles tie at the least domain size (null peek, queue emptied); on success it returns, without repeats, exactly the queued tiles of least domain size, removes exactly those from the queue, and every tile left has a strictly larger domain |
| Solver.SudokuSolver.Poll | src/main/java/sudoku/csp/SudokuSolver.java:93 | on a nonempty queue it removes exactly one tile, and that tile is a head of the comparator order |
| Solver.SudokuSolver.Peek | src/main/java/sudoku/csp/SudokuSolver.java:99 | on a nonempty queue it returns a head of the comparator order |
| Solver.SudokuSolver.FindMostRestraining | src/main/java/sudoku/csp/SudokuSolver.java:67-88 | the result is one of the choices and comes before every choice: fewest unassigned neighbours, then smallest row, then smallest column |
| Board.BoxListsSoFarStep | src/main/java/sudoku/csp/SudokuBoard.java:37-40 | appending one blank tile to its box's list extends the nine lists by that tile |
| Board.EmptyBoxLists | src/main/java/sudoku/csp/SudokuBoard.java:29-31 | exactly the keys 0..8, each with an empty list |
| Board.IterateBoard | src/main/java/sudoku/csp/SudokuBoard.java:34-44 | after the walk every tile carries its box number, list k holds exactly the blank tiles of box k in board order, and the unassigned set is exactly the blank tiles |
| Board.SeenTwice | src/main/java/sudoku/csp/SudokuBoard.java:159-165 | the scan over a growing `seen` set finds a repeat if and only if two tiles of the list hold the same value |
| Board.PassStep | src/main/java/sudoku/csp/SudokuBoard.java:49-54 | one more clue of the initial pass adds its value to what a blank tile has lost and one to what its counter has lost |
| Board.SudokuBoard.constructor | src/main/java/sudoku/csp/SudokuBoard.java:25-45 | each of the boxes 0..8 has a list and only those; every tile carries its box number; list k holds exactly the blank tiles of box k, in board order and without repeats; the unassigned set is exactly the blank tiles |
| Board.SudokuBoard.GetTilesInSec | src/main/java/sudoku/csp/SudokuBoard.java:72-74 | exactly the tiles of the list of the box |
| Board.SudokuBoard.GetTilesInRow | src/main/java/sudoku/csp/SudokuBoard.java:77-83 | exactly the tiles of the row, nine of them |
| Board.SudokuBoard.GetTilesInCol | src/main/java/sudoku/csp/SudokuBoard.java:85-91 | exactly the tiles of the column, nine of them |
| Board.SudokuBoard.GetNeighbours | src/main/java/sudoku/csp/SudokuBoard.java:103-109 | never the chosen tile; every other tile of its row, its column and its box list; nothing else; for a tile of the board that carries its own box number, at most 20 tiles, and a board tile is in the result if and only if it is adjacent |
| Board.SudokuBoard.NeighboursInCells | src/main/java/sudoku/csp/SudokuBoard.java:104-106 | the row, column and box-list tiles are all tiles of the board |
| Board.SudokuBoard.NeighboursAdjacent | src/main/java/sudoku/csp/SudokuBoard.java:103-109 | a board tile is in the row, column or box list of c and is not c if and only if it is adjacent to c |
| Board.SudokuBoard.OtherCorners | src/main/java/sudoku/csp/SudokuBoard.java:104 | the cells of a box outside a tile's row and column are at most four |
| Board.SudokuBoard.InOtherCorners | src/main/java/sudoku/csp/SudokuBoard.java:104 | a board tile of c's box off c's row and column is one of those four |
| Board.SudokuBoard.NeighbourCount | src/main/java/sudoku/csp/SudokuBoard.java:103-109 | the union of row, column and box list without the tile itself has at most 20 tiles: 8 + 8 + at most 4 |
| Board.SudokuBoard.GetMostConstrainedVariable | src/main/java/sudoku/csp/SudokuBoard.java:119-123 | no result exactly when nothing is unassigned (`getAsInt` throws); otherwise a nonempty subset of the unassigned tiles holding exactly those with no smaller domain than any other |
| Board.SudokuBoard.AddUnassigned | src/main/java/sudoku/csp/SudokuBoard.java:115-117 | the set gains exactly that tile |
| Board.SudokuBoard.RemoveUnassigned | src/main/java/sudoku/csp/SudokuBoard.java:125-127 | the set loses exactly that tile |
| Board.AddThenRemoveUnassigned | src/main/java/sudoku/csp/SudokuBoard.java:115-127 | adding a tile that was absent and removing it again restores the set |
| Board.SudokuBoard.Verify | src/main/java/sudoku/csp/SudokuBoard.java:129-141 | passes if and only if every tile is assigned and nonzero and no row, column or box list repeats a value; otherwise it reports the first unfilled tile in board order, or else the first row, else column, else box list with a repeat; the board is not changed |
| Board.SudokuBoard.VerifySec | src/main/java/sudoku/csp/SudokuBoard.java:143-154 | passes if and only if no box list repeats a value; otherwise reports the first box whose list does |
| Board.SudokuBoard.VerifyRow | src/main/java/sudoku/csp/SudokuBoard.java:157-167 | passes if and only if no row repeats a value; otherwise reports the first row that does |
| Board.SudokuBoard.VerifyCol | src/main/java/sudoku/csp/SudokuBoard.java:170-181 | passes if and only if no column repeats a value; otherwise reports the first column that does |
| Board.SudokuBoard.ClueValuesMeaning | src/main/java/sudoku/csp/SudokuBoard.java:49-54 | a value is in what the pass takes from x exactly when some clue adjacent to x holds it |
| Board.SudokuBoard.ClueCountMeaning | src/main/java/sudoku/csp/SudokuBoard.java:49-54 | the pass reaches x at least once exactly when some clue is adjacent to x |
| Board.SudokuBoard.ClueSnoc | src/main/java/sudoku/csp/SudokuBoard.java:49-54 | walking one more tile adds its value and one reach to x exactly when it is a clue adjacent to x |
| Board.SudokuBoard.PruneAll | src/main/java/sudoku/csp/SudokuBoard.java:52 | every tile of the neighbour set is pruned of v once through the solver's `removeDomin`, and no other tile is touched; the queue gains only the blank tiles pruned, and holds all of them |
| Board.SudokuBoard.PruneStep | src/main/java/sudoku/csp/SudokuSolver.java:133-140 | one `removeDomin(tile, v)` call on a tile of the neighbour set not yet pruned extends the pruned part by that tile: it loses v when blank and is queued again, its counter drops by one, and every other tile keeps its state |
| Board.SudokuBoard.PruneClue | src/main/java/sudoku/csp/SudokuBoard.java:50-53 | a clue prunes its value once from each adjacent tile and from nothing else; a blank tile changes nothing |
| Board.SudokuBoard.InitStep | src/main/java/sudoku/csp/SudokuBoard.java:49-54 | handing one more tile of the walk to the consumer extends the pass by that tile |
| Board.SudokuBoard.Init | src/main/java/sudoku/csp/SudokuBoard.java:47-56 | every blank tile loses exactly the values of the clues adjacent to it; every assigned tile keeps its domain; every counter drops by the number of adjacent clues; the queue gains exactly the blank tiles next to a clue |
| Board.SudokuBoard.ClueWalk | src/main/java/sudoku/csp/SudokuBoard.java:49-54 | walking every tile in board order and handing it to the clue consumer turns the state before the pass into the state after all cells: each tile has lost the values of its adjacent clues and its counter their number, and the queue gained exactly the blank tiles next to a clue |

## Left out

- `Main.java` is not part of this model. It reads puzzles from files, parses
  them and times the runs: I/O and driver code.
- `SudokuStep.java` is not part of this model. It calls methods that do not
  exist, so it has no behaviour to state.
- `SudokuSolver.run` is not modelled. It is the driver: a clue pass through
  `forwardCheck`, then one call of each heuristic whose result it discards,
  then printing and a demonstration that writes 11 into a shared tile.
- Printing (`printBoard`) and all logging are left out: console output only.
- There is no backtracking, value ordering or step budget in the code, and
  none in the model.
- `ConcurrentHashMap.newKeySet()` for the domain is a plain `set<int>`;
  concurrency plays no part.
- The priority queue's heap and the order among equal-size tiles are not
  modelled. The queue is the set of tiles it holds. `Poll` and `Peek` return
  some tile of least domain size, so which of several tied tiles comes first
  is left open.
- The queue is sorted when a tile is added, not when its domain later
  changes. That is why `removeDomin` removes the tile and adds it back. A set
  has no stale order, so the model cannot express a queue that a domain
  change left out of order.
- Board.SudokuBoard.GetMostConstrainedVariable returns a set, not the list
  the stream collects. Its order follows the hash set's iteration order.
- Board.SudokuBoard.PruneAll stands in for `solver.forwardCheck(neighbours,
  val)`, which `init` calls but the solver does not define. It applies the
  solver's `removeDomin` to each neighbour, in no particular order.
- Tiles.Tile.DecrementNumUNeighbours: the Java tile class has no
  `numUNeighbours` field or methods. The model gives it an ordinary integer
  field that starts at 0 (Java's default).
- Java `int` overflow is not modelled. No value in this code gets near it:
  domain sizes are at most 9, indexes at most 81, and the counter drops by at
  most one per pruning call.
- The board is assumed to have exactly nine rows of nine tiles, each made
  with its own row and column. The loader in `Main.java` adds an empty row
  for every line without nine tokens, and the Java loops over 9x9 ignore such
  rows; the model does not admit boards of that shape.
- Indices out of range are excluded by preconditions: a row, column or box
  number outside 0..8, or a tile that is not on the board. On those inputs
  the Java code throws an `IndexOutOfBoundsException`, or a
  `NullPointerException` from `new HashSet<>(null)`; no call in the code
  passes such an index.
