# PROXX rules engine in Dafny

PROXX is a Minesweeper-like game played on a square board of side `L`
(at most 40). Some cells hold black holes and the rest are Empty.

- A move on a black hole loses the game and reveals every black hole.
- A move on an Empty cell opens it with the number of black holes next to it.
- If that number is zero, the game goes on opening the cell's neighbours (the flood fill).
- Cells can be flagged and unflagged.
- The game is won when every Empty cell is Open.

This project models the domain layer of PROXX: the `Game` object and the `Cell` object.

- **`Cell.dfy`** (module `Cells`) is the `Cell` class: a constant content, a settable visibility, and an 8-bit adjacency count whose setter refuses values above eight.
- **`Grid.dfy`** (module `Grid`) describes a whole board as a value, `map<Coord, CellState>`. It holds the reference definitions the methods are proved against:
  - the neighbours in the order the flood fill looks at them, and the ones it collects;
  - the black holes next to a cell;
  - the Empty cells still to open;
  - the board after a lost move, after a flag and after an unflag;
  - how black holes are placed from a sequence of draws.

  It also holds the lemmas connecting these definitions.
- **`Game.dfy`** (module `Games`) is the `Game` class over an `array2<Cell?>`. It covers:
  - argument checking;
  - placement with the rejection loop and the nested filling loops;
  - the queries, `Flag`, `UnFlag` and `MakeMove`;
  - the recursive flood fill `CheckAdjacentCells` over a batch of coordinates.

  The ghost function `Snap()` reads the board as a `Grid.Board`. Each method's postcondition relates the new `Snap()` to the old one through the `Grid` functions.

`Game.Ready()` is the invariant every operation keeps:

- the recorded black-hole coordinates are distinct;
- they are exactly the black holes on the board;
- there are `blackHolesCount` of them;
- `cellsToOpen` is the number of Empty cells that are not Open, so it is never negative.

Two more board properties are carried alongside:

- `InPlay`: no black hole is Open, and every Open Empty cell shows its true count.
- `RegionsRevealed`: every neighbour of an Open Empty cell with count zero is Open. A black hole opened by a lost move also shows count zero, but its neighbours are not covered.

The flood fill also returns, as a ghost value, the cells it opened in the order it opened them.
Each of them is a batch entry or is next to an earlier one that ended with count zero, and no other cell changes.
For a move made while no black hole is Open, this together with the properties above determines the board after the move (`Grid.FillDetermined`).

`CheckAdjacentCells` and the loop step `CheckCoordinate` are mutually recursive.
Both decrease `cellsToOpen`, with a second component (1 for `CheckAdjacentCells`, 0 for `CheckCoordinate`) that orders the call from the first into the second.
Every call back into `CheckAdjacentCells` follows a cell being opened, so `cellsToOpen` has dropped.

## Model

| member | source | states |
|---|---|---|
| Cells.Cell.constructor | PROXX.Domain/Cell.cs:23-27 | stores the given content and visibility; the count starts at 0 |
| Cells.Cell.SetVisibility | PROXX.Domain/Cell.cs:21 | any visibility is accepted and stored; content and count are untouched |
| Cells.Cell.SetAdjacentBlackHolesCount | PROXX.Domain/Cell.cs:30-44 | the value is stored iff it is at most 8 (so 8 itself succeeds); a refused value leaves the stored count unchanged; content and visibility are untouched |
| Games.CheckArguments | PROXX.Domain/Game.cs:19-32 | the length check comes first: rejected for length iff `length <= 0` or `length > 40`; rejected for the black-hole count iff the length is valid and the count is `<= 0` or `> L*L - 1`; accepted arguments leave at least one Empty cell |
| Games.Game.Create | PROXX.Domain/Game.cs:17-39 | construction fails exactly when the checks reject, with the check's error; otherwise the new game stores length and count and has an empty `L×L` board and no recorded black holes |
| Games.Game.constructor | PROXX.Domain/Game.cs:34-38 | stores length and count and allocates an `L×L` board of nulls with an empty coordinate list |
| Games.Game.Initialize | PROXX.Domain/Game.cs:41-73 | every cell is non-null; the recorded coordinates are the first `blackHolesCount` distinct draws and are exactly the black holes; every cell is Hidden with count 0; `cellsToOpen == L*L - blackHolesCount`; the game invariant and `InPlay` hold |
| Games.Game.PlaceBlackHoles | PROXX.Domain/Game.cs:45-62 | after the loop, the recorded list is `Placement(draws, blackHolesCount)`; the non-null cells are exactly the recorded positions, each a Hidden black hole |
| Games.Game.NextDraw | PROXX.Domain/Game.cs:47-58 | the rejection loop reads draws until one lands on a position without a black hole; that draw is not yet recorded and is the next distinct draw |
| Games.Game.PlaceBlackHoleAt | PROXX.Domain/Game.cs:60-61 | a new Hidden black hole goes to the empty position, and the position is appended to the recorded list |
| Games.Game.DedupRepeat | PROXX.Domain/Game.cs:54-55 | a draw that hits a recorded black hole leaves the placement unchanged |
| Games.Game.DrawsLeft | PROXX.Domain/Game.cs:49-58 | while fewer than `blackHolesCount` distinct draws are placed, another draw is available |
| Games.Game.FillEmpty | PROXX.Domain/Game.cs:64-69 | every position receives a cell; positions already holding a black hole keep it; all others become Hidden Empty cells |
| Games.Game.FillColumn | PROXX.Domain/Game.cs:65-69 | column `i` is filled; every cell already placed stays in place; every position outside column `i` keeps what it held |
| Games.Game.InitialCounts | PROXX.Domain/Game.cs:72 | on a freshly filled board, the closed Empty cells number `L*L` less the black holes; no count is wrong; no zero region is unrevealed |
| Games.Game.IsWon | PROXX.Domain/Game.cs:75 | `cellsToOpen == 0` holds iff every Empty cell is Open |
| Games.Game.IsBlackHole | PROXX.Domain/Game.cs:77-78 | true iff the cell holds a black hole, iff the position is in the recorded list |
| Games.Game.IsInBounds | PROXX.Domain/Game.cs:80-82 | true iff the position is one of the `L×L` board positions |
| Games.Game.IsOpen | PROXX.Domain/Game.cs:84-85 | true iff the cell is Open (so Flagged counts as not Open) |
| Games.Game.Flag | PROXX.Domain/Game.cs:87-93 | the board becomes `FlagAt(old)`: only a Hidden target changes, to Flagged; the invariant, `InPlay` and revealed regions are kept |
| Games.Game.UnFlag | PROXX.Domain/Game.cs:94-100 | the board becomes `UnFlagAt(old)`: only a Flagged target changes, to Hidden; the invariant, `InPlay` and revealed regions are kept |
| Games.Game.MakeMove | PROXX.Domain/Game.cs:102-118 | true iff the target is Empty. On a black hole: the board becomes `RevealHazards(old)` and `cellsToOpen` is unchanged. On an Empty cell: the target ends Open, and only Empty cells that were not Open change, each to Open, so no black hole and no Open cell changes; `InPlay` holds after if it held before. The cells changed are listed in an order starting at the target, each next to an earlier one that ended with count zero; so when the target's count is not zero, the target is the only cell that changes. On a board in play, the result is a finished fill (`FillDone`), which `Grid.FillDetermined` shows is unique. Either way, the game invariant is kept and the zero regions stay revealed |
| Games.Game.RevealBlackHoles | PROXX.Domain/Game.cs:106-111 | after the loop over the recorded list, the board is `RevealHazards(old)`; the invariant, and revealed regions if they held, are kept |
| Games.Game.CheckAdjacentCells | PROXX.Domain/Game.cs:120-183 | every batch entry ends Open; only Empty cells are opened; `cellsToOpen` never grows and keeps counting the closed Empty cells; `InPlay` is kept; afterwards, every closed neighbour of a zero cell lies in the callers' pending work; every cell that changed is listed in the returned order, and each entry is in the batch or next to an earlier entry that ended with count zero |
| Games.Game.CheckCoordinate | PROXX.Domain/Game.cs:122-182 | one loop step. For an entry that was already Open, the board and `cellsToOpen` are unchanged and nothing is listed. A closed entry is opened; the cells it changes are listed starting from it, each next to an earlier one that ended with count zero. Afterwards the entries up to i are Open, and the closed neighbours of zero cells lie in the rest of the batch or the pending work |
| Games.Game.OpenCell | PROXX.Domain/Game.cs:127-171 | the cell is opened with the number of black holes among its collected not-Open neighbours (while no black hole is Open, the number of black holes next to it), and `cellsToOpen` drops by one; the setter's failure cannot happen here |
| Games.Game.CountAround | PROXX.Domain/Game.cs:130-167 | changes nothing; gives the collected neighbours and the number of black holes among them; that number is at most 8, and it is the number of black holes next to the cell while none is Open |
| Games.Game.CollectAdjacent | PROXX.Domain/Game.cs:133-163 | the result is `Candidates`: each in-bounds, not-Open neighbour exactly once, in the order N, S, W, E, NW, NE, SW, SE |
| Games.Game.CollectIfClosed | PROXX.Domain/Game.cs:133-135 | one direction's check extends what was gathered over the first k directions to the first k+1 |
| Games.Game.CountBlackHoles | PROXX.Domain/Game.cs:165-167 | the loop counts the entries holding a black hole; the count never exceeds the number of entries |
| Games.Game.SetVisibilityAt | PROXX.Domain/Game.cs:92 | writes one cell's visibility (the writes at Game.cs:92, 99 and 109); the new board is the old one with only that cell's visibility replaced |
| Games.Game.StoreCountAndOpen | PROXX.Domain/Game.cs:169-171 | the setter succeeds iff the count is at most 8; then the cell is opened with that count and `cellsToOpen` drops by one; otherwise nothing changes |
| Games.Without | PROXX.Domain/Game.cs:175-178 | keeps exactly the collected neighbours that are not in the current batch, at most as many as collected |
| Grid.AllCoordsSize | PROXX.Domain/Game.cs:37 | an `L×L` board has `L*L` positions |
| Grid.NeighboursAreAdjacent | PROXX.Domain/Game.cs:133-163 | the eight directions looked at are pairwise different; together they reach exactly the adjacent positions |
| Grid.GatherProperties | PROXX.Domain/Game.cs:133-163 | after k directions, the collected list holds exactly the not-Open neighbours in those directions, with no repeats and at most k entries |
| Grid.Candidates | PROXX.Domain/Game.cs:133-163 | a position is collected iff it is adjacent and not Open; at most 8, with no repeats |
| Grid.HazardsAmongProperties | PROXX.Domain/Game.cs:165-167 | the count over a list is at most its length, and it is zero iff no entry holds a black hole |
| Grid.HazardsAmongDistinct | PROXX.Domain/Game.cs:165-167 | over a list without repeats, the count is the number of distinct black holes listed |
| Grid.CandidateHazards | PROXX.Domain/Game.cs:165-169 | while no black hole is Open, the count over the collected neighbours equals the number of black holes next to the cell and is at most 8 (so the setter never fails) |
| Grid.ZeroCellNeighboursEmpty | PROXX.Domain/Game.cs:173-180 | when the count is zero, every neighbour the recursion goes to is an Empty cell |
| Grid.SameContentsSameHazards | PROXX.Domain/Cell.cs:20-25 | boards with the same positions and contents have the same black holes around every position |
| Grid.OpenedAt | PROXX.Domain/Game.cs:169-170 | the opened cell is Open with the stored count; every content is unchanged |
| Grid.OpenedLeavesClosed | PROXX.Domain/Game.cs:170-171 | opening a closed Empty cell takes exactly that cell off the set to open, so the counter decrement keeps the invariant |
| Grid.OpenKeepsInPlay | PROXX.Domain/Game.cs:165-170 | opening an Empty cell with its true count keeps every count correct and every black hole closed |
| Grid.OpenedCellEffect | PROXX.Domain/Game.cs:165-171 | opening keeps the black holes in place and lowers the number of closed Empty cells by one; with the true count, the board stays in play |
| Grid.FrontierAfterOpen | PROXX.Domain/Game.cs:173-181 | after opening a cell, the cells left to open are the old pending work less that cell; with count zero, the collected neighbours are added |
| Grid.BatchFrontier | PROXX.Domain/Game.cs:122-180 | the work pending after entry i of a batch is the callers' pending work, the rest of the batch, and the recursion's list, which skips the batch's own entries |
| Grid.FillOrderOne | PROXX.Domain/Game.cs:169-171 | opening a batch entry is a fill that lists just that entry |
| Grid.FillOrderAppend | PROXX.Domain/Game.cs:122-182 | two stretches of the fill in a row combine, when the second starts from the first one's batch or from neighbours of a zero cell the first one opened |
| Grid.BatchStep | PROXX.Domain/Game.cs:122-182 | what the loop has opened so far, followed by what entry i opens, is still a fill from the batch |
| Grid.FillAfterZero | PROXX.Domain/Game.cs:173-181 | opening a zero cell and then recursing on positions next to it is a fill from that cell |
| Grid.OnlyStart | PROXX.Domain/Game.cs:173 | in a fill from one cell whose count is not zero, every listed entry is that cell |
| Grid.FillStopsAtCount | PROXX.Domain/Game.cs:173 | a fill from one cell whose count is not zero changes that cell only: a cell with a count does not propagate |
| Grid.ReachedOpen | PROXX.Domain/Game.cs:120-183 | every cell one finished fill opened is Open in any other finished fill from the same board and batch |
| Grid.FillDetermined | PROXX.Domain/Game.cs:120-183 | two finished fills from the same board and batch give the same board: the post-state of a move is determined |
| Grid.OpenIsProgress | PROXX.Domain/Game.cs:169-170 | opening a not-Open Empty cell only opens it |
| Grid.ProgressTransitive | PROXX.Domain/Game.cs:120-183 | opening Empty cells in several steps is still opening Empty cells |
| Grid.ProgressKeepsOpened | PROXX.Domain/Game.cs:124-125 | a cell that is Open stays Open |
| Grid.FlagsKeepOpen | PROXX.Domain/Game.cs:87-100 | flagging and unflagging change no content, no count and no Open cell, and only the target; a non-Hidden target is a no-op for Flag and a non-Flagged one for UnFlag |
| Grid.FlagRoundTrip | PROXX.Domain/Game.cs:87-100 | Flag then UnFlag on a Hidden cell restores the board; UnFlag then Flag on a Flagged cell restores it |
| Grid.SameOpenKeepsInvariants | PROXX.Domain/Game.cs:87-100 | a change that only toggles flags keeps the set to open, `InPlay` and the revealed regions |
| Grid.RevealHazardsEffect | PROXX.Domain/Game.cs:105-111 | the lost board has every black hole Open; every Empty cell is unchanged, as are the set to open and the black holes; with at least one black hole, the board is no longer in play; revealed regions stay revealed |
| Grid.OpenEach | PROXX.Domain/Game.cs:108-109 | opening a list of cells one by one keeps the board's positions |
| Grid.OpenEachEffect | PROXX.Domain/Game.cs:108-109 | after the loop, every listed position is Open with its old content and count, and every other position is unchanged |
| Grid.OpenEachHazardReveals | PROXX.Domain/Game.cs:108-109 | opening the recorded black holes one by one gives the lost board |
| Grid.WonIffAllEmptyOpen | PROXX.Domain/Game.cs:75 | no cell is left to open iff every Empty cell is Open |
| Grid.DedupProperties | PROXX.Domain/Game.cs:45-61 | the distinct draws have the same elements as the draws, with no repeats |
| Grid.DedupPrefix | PROXX.Domain/Game.cs:45-61 | the distinct draws of a prefix are a prefix of the distinct draws of the whole |
| Grid.DistinctSize | PROXX.Domain/Game.cs:61 | a list without repeats has as many elements as entries, so the recorded list has `blackHolesCount` distinct black holes |
| Grid.Placement | PROXX.Domain/Game.cs:45-62 | the placed black holes are `n` distinct positions, all taken from the draws |

## Left out

- `System.Random` is not modelled. `Initialize` takes the sequence of coordinates the random source would yield, `draws`, and runs the rejection loop on it literally.
  - The precondition `blackHolesCount <= |Elems(draws)|` stands in for the source loop's termination with probability one.
  - Each pair of `random.Next(Length)` calls becomes one draw.
- The exception messages are not modelled.
  - The constructor's `ArgumentException` becomes `Result.Failure` from `Game.Create`, carrying which check failed. The Dafny constructor itself requires accepted arguments.
  - `MaxAdjacentCellsExceededException` becomes the `SetCountOutcome` value `MaxAdjacentCellsExceeded`.
- `Flag`, `UnFlag` and `MakeMove` require in-bounds coordinates. In the source an out-of-bounds coordinate throws `IndexOutOfRangeException` from the array access; that error path is not modelled.
- Calling `Flag`, `UnFlag` or `MakeMove` before `Initialize`, which dereferences null cells in the source, is excluded by the precondition `Ready()`. Calling `Initialize` twice is excluded by `Blank()`.
- Games.Game.IsWon: requires `Ready()`, so a call before `Initialize` is not modelled; the source reads only `cellsToOpen` and returns true there, because the field starts at 0.
- Games.Game.MakeMove: requires `RegionsRevealed`. This is not a demand on callers: `Initialize` establishes it and every operation keeps it.
  - Moves after a loss or a win are allowed, as in the source.
  - After a loss, the counts a move stores leave out the Open black holes, as the source's do. So only a move made while no black hole is Open promises `InPlay` afterwards.
  - After a loss, the contract does not fix the counts the move stores, and with them the board after the move. It still fixes which cells may change (`FillOrder`) and that only Empty cells were opened. `FillDone`, and so `Grid.FillDetermined`, needs `InPlay`, which a lost board does not have. OpenCell does state each stored count, as the number of black holes among the collected neighbours, but `MakeMove` does not pass this on.
- The public `Board` and `Length` getters are not separate members: `board` and `length` are constant fields of the class.
- The `CheckAdjacentCells` loop body is split into the methods `CheckCoordinate`, `OpenCell`, `CountAround`, `CollectAdjacent`, `CountBlackHoles` and `StoreCountAndOpen`.
  - Together they do what the source does inline, in the same order, with one exception.
  - `StoreCountAndOpen` decrements `cellsToOpen` just before writing the visibility, not just after. Nothing between the two can fail, so the outcome is the same.
- The lambda at PROXX.Domain/Game.cs:177 names its parameter `x`, like the local `x` of the loop. It receives a coordinate and tests membership in the current batch, and is modelled that way.
- 32-bit overflow of `int` is not modelled, because `L*L <= 1600`. The `byte` increment cannot wrap either, because at most eight neighbours are counted.
- The console program (PROXX/Program.cs), its `View`, colours and the play-again loop are input and output, and are not part of this model.
