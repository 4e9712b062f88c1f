/** A game: a square board of cells, the black holes placed on it, the number
    of Empty cells still to open, and the operations a player drives. */
module Games {
  import opened Cells
  import opened Grid

  /** The largest side length a board may have. */
  const MaxAllowedLength := 40

  datatype ArgumentError = LengthOutOfRange | BlackHolesCountOutOfRange

  datatype Checked = Accepted | Rejected(error: ArgumentError)

  datatype Result<T> = Success(value: T) | Failure(error: ArgumentError)

  /** The constructor's argument checks: the length is checked first, then
      the number of black holes, which must leave at least one Empty cell. */
  function CheckArguments(length: int, blackHolesCount: int): (r: Checked)
    ensures r == Rejected(LengthOutOfRange) <==> length <= 0 || length > MaxAllowedLength
    ensures r == Rejected(BlackHolesCountOutOfRange) <==>
              0 < length <= MaxAllowedLength && (blackHolesCount <= 0 || blackHolesCount > length * length - 1)
    ensures r == Accepted ==> 0 < blackHolesCount < length * length
  {
    if length <= 0 || length > MaxAllowedLength then Rejected(LengthOutOfRange)
    else if blackHolesCount <= 0 || blackHolesCount > length * length - 1 then Rejected(BlackHolesCountOutOfRange)
    else Accepted
  }

  /** The positions a zero cell's recursion goes on to: the collected
      neighbours that the current batch does not already hold, in order. */
  function Without(adjacent: seq<Coord>, batch: seq<Coord>): (r: seq<Coord>)
    ensures forall d :: d in r <==> d in adjacent && d !in batch
    ensures |r| <= |adjacent|
  {
    if adjacent == [] then []
    else
      var last := adjacent[|adjacent| - 1];
      Without(adjacent[..|adjacent| - 1], batch) + (if last in batch then [] else [last])
  }

  class Game {
    const length: int
    const blackHolesCount: int
    var cellsToOpen: int
    const board: array2<Cell?>
    var blackHolesCoordinates: seq<Coord>

    /** Where each cell of the board sits: the inverse of board, so that two
        positions never share a cell. */
    ghost var slot: map<Cell, Coord>

    /** The structure every game keeps from construction on. */
    ghost predicate Valid()
      reads this`slot, this`blackHolesCoordinates, board
    {
      CheckArguments(length, blackHolesCount) == Accepted &&
      board.Length0 == length && board.Length1 == length &&
      (forall x, y :: 0 <= x < length && 0 <= y < length && board[x, y] != null ==>
         board[x, y] in slot && slot[board[x, y]] == Coord(x, y)) &&
      (forall c :: c in blackHolesCoordinates ==> InBounds(length, c))
    }

    /** The state between construction and Initialize. */
    ghost predicate Blank()
      reads this`blackHolesCoordinates, board
    {
      blackHolesCoordinates == [] &&
      forall x, y :: 0 <= x < board.Length0 && 0 <= y < board.Length1 ==> board[x, y] == null
    }

    /** Every position holds a cell. */
    ghost predicate Filled()
      reads board
    {
      forall x, y :: 0 <= x < board.Length0 && 0 <= y < board.Length1 ==> board[x, y] != null
    }

    /** The board as a value. */
    ghost function Snap(): (g: Board)
      reads this`slot, this`blackHolesCoordinates, board, slot.Keys
      requires Valid() && Filled()
      ensures g.Keys == AllCoords(length)
    {
      map c | c in AllCoords(length) :: board[c.x, c.y].State()
    }

    /** The game invariant after Initialize: the recorded coordinates are the
        black holes, each once, and cellsToOpen counts the Empty cells that
        are not Open. */
    ghost predicate Ready()
      reads this`slot, this`blackHolesCoordinates, this`cellsToOpen, board, slot.Keys
    {
      Valid() && Filled() &&
      Distinct(blackHolesCoordinates) && |blackHolesCoordinates| == blackHolesCount &&
      Elems(blackHolesCoordinates) == HazardSet(Snap()) &&
      cellsToOpen == |ClosedEmpty(Snap())|
    }

    constructor (length: int, blackHolesCount: int)
      requires CheckArguments(length, blackHolesCount) == Accepted
      ensures this.length == length && this.blackHolesCount == blackHolesCount
      ensures fresh(board) && Valid() && Blank()
    {
      this.length := length;
      this.blackHolesCount := blackHolesCount;
      board := new Cell?[length, length]((x, y) => null);
      blackHolesCoordinates := [];
      slot := map[];
      cellsToOpen := 0;
    }

    /** Construction: invalid arguments fail, valid ones give a blank board. */
    static method Create(length: int, blackHolesCount: int) returns (r: Result<Game>)
      ensures r.Failure? <==> CheckArguments(length, blackHolesCount) != Accepted
      ensures r.Failure? ==> CheckArguments(length, blackHolesCount) == Rejected(r.error)
      ensures r.Success? ==> fresh(r.value) && fresh(r.value.board) && r.value.Valid() && r.value.Blank()
      ensures r.Success? ==> r.value.length == length && r.value.blackHolesCount == blackHolesCount
    {
      var checked := CheckArguments(length, blackHolesCount);
      if checked.Rejected? {
        return Failure(checked.error);
      }
      var game := new Game(length, blackHolesCount);
      return Success(game);
    }

    /** Places the black holes and fills the rest of the board with Empty
        cells. `draws` are the coordinates the random source yields, in
        order; a draw that lands on a black hole is drawn again. */
    method Initialize(draws: seq<Coord>)
      requires Valid() && Blank()
      requires forall d :: d in draws ==> InBounds(length, d)
      requires blackHolesCount <= |Elems(draws)|
      modifies this, board
      ensures Ready() && InPlay(Snap()) && RegionsRevealed(Snap())
      ensures blackHolesCoordinates == Placement(draws, blackHolesCount)
      ensures forall c :: c in Snap() ==>
                Snap()[c] == CellState(if c in blackHolesCoordinates then BlackHole else Empty, Hidden, 0)
      ensures cellsToOpen == length * length - blackHolesCount
    {
      PlaceBlackHoles(draws);
      FillEmpty();
      cellsToOpen := length * length - blackHolesCount;
      InitialCounts(Snap(), blackHolesCoordinates, length);
    }

    /** The first loop of Initialize: blackHolesCount distinct draws become
        Hidden black holes, and every other position stays empty. */
    method PlaceBlackHoles(draws: seq<Coord>)
      requires Valid() && Blank()
      requires forall d :: d in draws ==> InBounds(length, d)
      requires blackHolesCount <= |Elems(draws)|
      modifies this`blackHolesCoordinates, this`slot, board
      ensures Valid() && blackHolesCoordinates == Placement(draws, blackHolesCount)
      ensures Placed()
    {
      var k := 0;
      for i := 0 to blackHolesCount
        invariant Valid() && Placed()
        invariant 0 <= k <= |draws| && blackHolesCoordinates == Dedup(draws[..k])
        invariant |blackHolesCoordinates| == i
      {
        var d;
        d, k := NextDraw(draws, k, i);
        assert draws[..k][..k - 1] == draws[..k - 1];
        PlaceBlackHoleAt(d);
      }
      DedupProperties(draws[..k]);
      DedupPrefix(draws, k);
    }

    /** During placement, the non-empty positions are exactly the recorded
        black holes, each a Hidden black hole cell. */
    ghost predicate Placed()
      reads this`slot, this`blackHolesCoordinates, board, slot.Keys
      requires Valid()
    {
      forall x, y :: 0 <= x < board.Length0 && 0 <= y < board.Length1 ==>
        (board[x, y] != null <==> Coord(x, y) in blackHolesCoordinates) &&
        (board[x, y] != null ==> board[x, y].State() == CellState(BlackHole, Hidden, 0))
    }

    /** The rejection loop of Initialize: draws are read until one lands on a
        position without a black hole; k counts the draws read so far. */
    method NextDraw(draws: seq<Coord>, k: nat, ghost placed: nat) returns (d: Coord, k': nat)
      requires Valid() && Placed()
      requires forall d :: d in draws ==> InBounds(length, d)
      requires k <= |draws| && blackHolesCoordinates == Dedup(draws[..k])
      requires placed == |blackHolesCoordinates| < |Elems(draws)|
      ensures k < k' <= |draws| && d == draws[k' - 1] && InBounds(length, d)
      ensures blackHolesCoordinates == Dedup(draws[..k' - 1]) && d !in blackHolesCoordinates
      ensures board[d.x, d.y] == null
    {
      DrawsLeft(draws, k, placed);
      d := draws[k];
      k' := k + 1;
      while board[d.x, d.y] != null && board[d.x, d.y].content == BlackHole
        invariant k < k' <= |draws| && d == draws[k' - 1] && InBounds(length, d)
        invariant blackHolesCoordinates == Dedup(draws[..k' - 1])
        decreases |draws| - k'
      {
        assert d == Coord(d.x, d.y) && d in blackHolesCoordinates;
        DedupRepeat(draws, k', blackHolesCoordinates);
        DrawsLeft(draws, k', placed);
        d := draws[k'];
        k' := k' + 1;
      }
      assert d == Coord(d.x, d.y);
    }

    /** Puts a new Hidden black hole at the empty position d. */
    method PlaceBlackHoleAt(d: Coord)
      requires Valid() && Placed() && InBounds(length, d) && board[d.x, d.y] == null
      modifies this`blackHolesCoordinates, this`slot, board
      ensures Valid() && Placed()
      ensures blackHolesCoordinates == old(blackHolesCoordinates) + [d]
    {
      var cell := new Cell(BlackHole, Hidden);
      board[d.x, d.y] := cell;
      blackHolesCoordinates := blackHolesCoordinates + [d];
      slot := slot[cell := d];
    }

    /** The nested loops of Initialize: every position still empty receives a
        Hidden Empty cell. */
    method FillEmpty()
      requires Valid() && Placed()
      modifies this`slot, board
      ensures Valid() && Filled()
      ensures forall c :: c in Snap() ==>
                Snap()[c] == CellState(if c in blackHolesCoordinates then BlackHole else Empty, Hidden, 0)
    {
      for i := 0 to length
        invariant Valid() && Sketched()
        invariant forall x, y :: 0 <= x < i && 0 <= y < length ==> board[x, y] != null
      {
        FillColumn(i);
      }
      assert forall c :: c in AllCoords(length) ==> c == Coord(c.x, c.y);
    }

    /** During filling: every black hole is in place, and every cell placed so
        far is Hidden, with no count, and holds a black hole exactly where one
        was recorded. */
    ghost predicate Sketched()
      reads this`slot, this`blackHolesCoordinates, board, slot.Keys
      requires Valid()
    {
      forall x, y :: 0 <= x < board.Length0 && 0 <= y < board.Length1 ==>
        (Coord(x, y) in blackHolesCoordinates ==> board[x, y] != null) &&
        (board[x, y] != null ==>
           board[x, y].State() == CellState(if Coord(x, y) in blackHolesCoordinates then BlackHole else Empty, Hidden, 0))
    }

    /** The inner loop of the filling: column i receives its Empty cells,
        cells already placed stay where they are, and the other columns are
        left alone. */
    method FillColumn(i: int)
      requires Valid() && Sketched() && 0 <= i < length
      modifies this`slot, board
      ensures Valid() && Sketched()
      ensures forall y :: 0 <= y < length ==> board[i, y] != null
      ensures forall x, y :: 0 <= x < length && 0 <= y < length && old(board[x, y]) != null ==>
                board[x, y] == old(board[x, y])
      ensures forall x, y :: 0 <= x < length && x != i && 0 <= y < length ==> board[x, y] == old(board[x, y])
    {
      for j := 0 to length
        invariant Valid() && Sketched()
        invariant forall y :: 0 <= y < j ==> board[i, y] != null
        invariant forall x, y :: 0 <= x < length && 0 <= y < length && old(board[x, y]) != null ==>
                    board[x, y] == old(board[x, y])
        invariant forall x, y :: 0 <= x < length && x != i && 0 <= y < length ==> board[x, y] == old(board[x, y])
      {
        if board[i, j] == null {
          var cell := new Cell(Empty, Hidden);
          board[i, j] := cell;
          slot := slot[cell := Coord(i, j)];
        }
      }
    }

    /** While fewer than blackHolesCount distinct draws have been placed, some
        draw has yet to be read. */
    static lemma DrawsLeft(draws: seq<Coord>, k: nat, placed: nat)
      requires k <= |draws| && placed < |Elems(draws)|
      requires |Dedup(draws[..k])| == placed
      ensures k < |draws|
    {
      DedupProperties(draws[..k]);
      DistinctSize(Dedup(draws[..k]));
      assert draws[..|draws|] == draws;
    }

    /** A draw already placed leaves the placement as it was. */
    static lemma DedupRepeat(draws: seq<Coord>, k: nat, placed: seq<Coord>)
      requires 0 < k <= |draws| && placed == Dedup(draws[..k - 1])
      requires draws[k - 1] in placed
      ensures Dedup(draws[..k]) == placed
    {
      assert draws[..k][..k - 1] == draws[..k - 1];
    }

    /** A fresh board: the number of closed Empty cells is the number of
        positions less the number of black holes. */
    static lemma InitialCounts(g: Board, coords: seq<Coord>, length: nat)
      requires g.Keys == AllCoords(length) && Distinct(coords)
      requires forall c :: c in g ==> g[c] == CellState(if c in coords then BlackHole else Empty, Hidden, 0)
      requires forall c :: c in coords ==> c in g
      ensures HazardSet(g) == Elems(coords)
      ensures |ClosedEmpty(g)| == length * length - |coords|
      ensures InPlay(g) && RegionsRevealed(g)
    {
      AllCoordsSize(length);
      DistinctSize(coords);
      var placed := Elems(coords);
      assert HazardSet(g) == placed;
      assert g.Keys == ClosedEmpty(g) + placed;
      DisjointUnionSize(ClosedEmpty(g), placed);
    }

    function IsWon(): (won: bool)
      reads this`slot, this`blackHolesCoordinates, this`cellsToOpen, board, slot.Keys
      requires Ready()
      ensures won <==> forall c :: c in Snap() && Snap()[c].content == Empty ==> Snap()[c].visibility == Open
    {
      WonIffAllEmptyOpen(Snap());
      cellsToOpen == 0
    }

    function IsBlackHole(coordinates: Coord): (r: bool)
      reads this`slot, this`blackHolesCoordinates, this`cellsToOpen, board, slot.Keys
      requires Ready() && InBounds(length, coordinates)
      ensures r <==> HoldsBlackHole(Snap(), coordinates)
      ensures r <==> coordinates in blackHolesCoordinates
    {
      assert coordinates in AllCoords(length) && coordinates == Coord(coordinates.x, coordinates.y);
      assert coordinates in blackHolesCoordinates <==> coordinates in Elems(blackHolesCoordinates);
      board[coordinates.x, coordinates.y].content == BlackHole
    }

    function IsInBounds(coordinates: Coord): (r: bool)
      ensures r <==> coordinates in AllCoords(length)
    {
      coordinates.x >= 0 && coordinates.x < length && coordinates.y >= 0 && coordinates.y < length
    }

    function IsOpen(coordinates: Coord): (r: bool)
      reads this`slot, this`blackHolesCoordinates, board, slot.Keys
      requires Valid() && Filled() && InBounds(length, coordinates)
      ensures r <==> !Unopened(Snap(), coordinates)
    {
      board[coordinates.x, coordinates.y].visibility == Open
    }

    /** Writes one cell's visibility; every other cell is left alone. */
    method SetVisibilityAt(p: Coord, v: CellVisibility)
      requires Valid() && Filled() && InBounds(length, p)
      modifies slot.Keys
      ensures Valid() && Filled()
      ensures Snap() == old(Snap())[p := old(Snap())[p].(visibility := v)]
    {
      ghost var before := Snap();
      var cell := board[p.x, p.y];
      cell.SetVisibility(v);
      forall c | c in AllCoords(length)
        ensures Snap()[c] == before[p := before[p].(visibility := v)][c]
      {
        if c != p {
          assert slot[board[c.x, c.y]] == c;
        }
      }
    }

    /** Stores a cell's count, opens it and takes it off the number of cells
        to open, as the flood fill does; a count above eight is refused and
        nothing changes. */
    method StoreCountAndOpen(p: Coord, n: byte) returns (outcome: SetCountOutcome)
      requires Valid() && Filled() && InBounds(length, p)
      modifies this`cellsToOpen, slot.Keys
      ensures Valid() && Filled()
      ensures outcome == Stored <==> n <= MaxAdjacentCellsCount
      ensures Snap() == if outcome == Stored then OpenedAt(old(Snap()), p, n as nat) else old(Snap())
      ensures cellsToOpen == if outcome == Stored then old(cellsToOpen) - 1 else old(cellsToOpen)
    {
      ghost var before := Snap();
      var cell := board[p.x, p.y];
      outcome := cell.SetAdjacentBlackHolesCount(n);
      if outcome != Stored {
        return;
      }
      // taking the cell off the count before its visibility changes is the
      // same as afterwards: nothing in between can fail
      cellsToOpen := cellsToOpen - 1;
      cell.SetVisibility(Open);
      forall c | c in AllCoords(length)
        ensures Snap()[c] == OpenedAt(before, p, n as nat)[c]
      {
        if c != p {
          assert slot[board[c.x, c.y]] == c;
        }
      }
    }

    /** Flag: a Hidden cell becomes Flagged; nothing else changes. */
    method Flag(coordinates: Coord)
      requires Ready() && InBounds(length, coordinates)
      modifies slot.Keys
      ensures Ready() && Snap() == FlagAt(old(Snap()), coordinates)
      ensures old(InPlay(Snap())) ==> InPlay(Snap())
      ensures old(RegionsRevealed(Snap())) ==> RegionsRevealed(Snap())
    {
      var currentCell := board[coordinates.x, coordinates.y];
      if currentCell.visibility == Hidden {
        SetVisibilityAt(coordinates, Flagged);
      }
      FlagsKeepOpen(old(Snap()), coordinates);
      SameOpenKeepsInvariants(old(Snap()), Snap());
      SameContentsSameHazards(old(Snap()), Snap());
    }

    /** UnFlag: a Flagged cell becomes Hidden; nothing else changes. */
    method UnFlag(coordinates: Coord)
      requires Ready() && InBounds(length, coordinates)
      modifies slot.Keys
      ensures Ready() && Snap() == UnFlagAt(old(Snap()), coordinates)
      ensures old(InPlay(Snap())) ==> InPlay(Snap())
      ensures old(RegionsRevealed(Snap())) ==> RegionsRevealed(Snap())
    {
      var currentCell := board[coordinates.x, coordinates.y];
      if currentCell.visibility == Flagged {
        SetVisibilityAt(coordinates, Hidden);
      }
      FlagsKeepOpen(old(Snap()), coordinates);
      SameOpenKeepsInvariants(old(Snap()), Snap());
      SameContentsSameHazards(old(Snap()), Snap());
    }

    /** A move: on a black hole every black hole is revealed and the move
        fails; otherwise the flood fill opens the cell and its zero region.
        A move may follow a lost one; the counts it stores are the true ones
        while no black hole is Open. `order` lists the cells the flood fill
        opened, in the order it opened them. */
    method MakeMove(coordinates: Coord) returns (successfulMove: bool, ghost order: seq<Coord>)
      requires Ready() && RegionsRevealed(Snap())
      requires InBounds(length, coordinates)
      modifies this`cellsToOpen, slot.Keys
      ensures Ready() && RegionsRevealed(Snap())
      ensures successfulMove <==> old(Snap())[coordinates].content == Empty
      ensures !successfulMove ==> Snap() == RevealHazards(old(Snap())) && cellsToOpen == old(cellsToOpen)
      ensures successfulMove ==> Progress(old(Snap()), Snap()) && Snap()[coordinates].visibility == Open
      ensures successfulMove && old(InPlay(Snap())) ==> InPlay(Snap())
      ensures successfulMove ==> FillOrder(old(Snap()), Snap(), {coordinates}, order)
      ensures successfulMove && Snap()[coordinates].count != 0 ==>
                forall c :: c in old(Snap()) && Snap()[c] != old(Snap())[c] ==> c == coordinates
      ensures successfulMove && old(InPlay(Snap())) ==> FillDone(old(Snap()), Snap(), {coordinates}, order)
    {
      successfulMove := true;
      var isBlackHole := IsBlackHole(coordinates);
      if isBlackHole {
        RevealBlackHoles();
        return !successfulMove, [];
      }

      assert Elems([coordinates]) == {coordinates};
      order := CheckAdjacentCells([coordinates], {});
      if Snap()[coordinates].count != 0 {
        FillStopsAtCount(old(Snap()), Snap(), coordinates, order);
      }
      return successfulMove, order;
    }

    /** The loop of a losing move: every recorded black hole is opened. */
    method RevealBlackHoles()
      requires Ready()
      modifies slot.Keys
      ensures Ready() && Snap() == RevealHazards(old(Snap()))
      ensures old(RegionsRevealed(Snap())) ==> RegionsRevealed(Snap())
    {
      for i := 0 to |blackHolesCoordinates|
        invariant Valid() && Filled()
        invariant Snap() == OpenEach(old(Snap()), blackHolesCoordinates[..i])
      {
        var c := blackHolesCoordinates[i];
        SetVisibilityAt(c, Open);
        assert blackHolesCoordinates[..i + 1][..i] == blackHolesCoordinates[..i];
      }
      assert blackHolesCoordinates[..|blackHolesCoordinates|] == blackHolesCoordinates;
      OpenEachHazardReveals(old(Snap()), blackHolesCoordinates);
      RevealHazardsEffect(old(Snap()));
    }

    /** The flood fill over one batch of Empty positions. Each position that
        is not yet Open gets its count and is opened; a zero count continues
        with its collected neighbours that this batch does not hold.
        `pending` is the work the callers have still to do: every closed
        neighbour of a zero cell lies in it or in this batch on entry, and in
        it on exit. `order` lists the cells opened, in the order they were
        opened. */
    method CheckAdjacentCells(coordinatesToCheck: seq<Coord>, ghost pending: set<Coord>) returns (ghost order: seq<Coord>)
      requires Ready()
      requires forall c :: c in coordinatesToCheck ==> InBounds(length, c) && Snap()[c].content == Empty
      requires ZeroFrontierWithin(Snap(), pending + Elems(coordinatesToCheck))
      modifies this`cellsToOpen, slot.Keys
      ensures Ready() && (old(InPlay(Snap())) ==> InPlay(Snap()))
      ensures Progress(old(Snap()), Snap()) && cellsToOpen <= old(cellsToOpen)
      ensures forall c :: c in coordinatesToCheck ==> Snap()[c].visibility == Open
      ensures ZeroFrontierWithin(Snap(), pending)
      ensures FillOrder(old(Snap()), Snap(), Elems(coordinatesToCheck), order)
      decreases cellsToOpen, 1
    {
      ghost var start := Snap();
      ghost var batch := Elems(coordinatesToCheck);
      order := [];
      FillOrderNone(start, batch);
      for i := 0 to |coordinatesToCheck|
        invariant Ready() && (InPlay(start) ==> InPlay(Snap()))
        invariant Progress(start, Snap()) && cellsToOpen <= old(cellsToOpen)
        invariant forall c :: c in coordinatesToCheck ==> Snap()[c].content == Empty
        invariant forall j :: 0 <= j < i ==> !Unopened(Snap(), coordinatesToCheck[j])
        invariant ZeroFrontierWithin(Snap(), pending + Elems(coordinatesToCheck[i..]))
        invariant FillOrder(start, Snap(), batch, order)
      {
        ghost var before := Snap();
        ghost var step := CheckCoordinate(coordinatesToCheck, i, pending);
        BatchStep(start, before, Snap(), coordinatesToCheck, order, i, step);
        order := order + step;
      }
      assert Elems(coordinatesToCheck[|coordinatesToCheck|..]) == {};
    }

    /** The body of the flood fill's loop for entry i of the batch: an Open
        position is skipped; otherwise it is opened with its count, and a zero
        count continues with its collected neighbours that the batch does not
        hold. `order` lists the cells opened, in the order they were opened. */
    method CheckCoordinate(coordinatesToCheck: seq<Coord>, i: nat, ghost pending: set<Coord>) returns (ghost order: seq<Coord>)
      requires Ready() && i < |coordinatesToCheck|
      requires forall c :: c in coordinatesToCheck ==> InBounds(length, c) && Snap()[c].content == Empty
      requires forall j :: 0 <= j < i ==> !Unopened(Snap(), coordinatesToCheck[j])
      requires ZeroFrontierWithin(Snap(), pending + Elems(coordinatesToCheck[i..]))
      modifies this`cellsToOpen, slot.Keys
      ensures Ready() && (old(InPlay(Snap())) ==> InPlay(Snap()))
      ensures Progress(old(Snap()), Snap()) && cellsToOpen <= old(cellsToOpen)
      ensures forall j :: 0 <= j <= i ==> !Unopened(Snap(), coordinatesToCheck[j])
      ensures ZeroFrontierWithin(Snap(), pending + Elems(coordinatesToCheck[i + 1..]))
      ensures FillOrder(old(Snap()), Snap(), {coordinatesToCheck[i]}, order)
      ensures !old(Unopened(Snap(), coordinatesToCheck[i])) ==>
                Snap() == old(Snap()) && cellsToOpen == old(cellsToOpen) && order == []
      decreases cellsToOpen, 0
    {
      var coordinate := coordinatesToCheck[i];
      ghost var todo := pending + Elems(coordinatesToCheck[i..]);
      if IsOpen(coordinate) {
        BatchFrontier(Snap(), coordinatesToCheck, i, pending, todo, {}, []);
        FillOrderNone(Snap(), {coordinate});
        return [];
      }

      ghost var g := Snap();
      var adjacentCoordinates, adjacentBlackHolesCount := OpenCell(coordinate);
      ghost var h := Snap();
      ghost var k := adjacentBlackHolesCount as nat;
      OpenIsProgress(g, coordinate, k);
      ProgressKeepsOpened(g, h, coordinatesToCheck, i);
      FrontierAfterOpen(g, coordinate, k, todo);

      if adjacentBlackHolesCount == 0 {
        var moreCoordinatesToCheck := Without(adjacentCoordinates, coordinatesToCheck);
        ghost var found := Elems(adjacentCoordinates);
        BatchFrontier(h, coordinatesToCheck, i, pending, (todo - {coordinate}) + found, found, moreCoordinatesToCheck);
        ZeroCellNeighboursEmpty(g, coordinate);
        ghost var more := CheckAdjacentCells(moreCoordinatesToCheck, pending + Elems(coordinatesToCheck[i + 1..]));
        ProgressTransitive(g, h, Snap());
        ProgressKeepsOpened(h, Snap(), coordinatesToCheck, i + 1);
        FillAfterZero(g, coordinate, Snap(), moreCoordinatesToCheck, more);
        order := [coordinate] + more;
      } else {
        BatchFrontier(h, coordinatesToCheck, i, pending, todo - {coordinate}, {}, []);
        FillOrderOne(g, coordinate, k, {coordinate});
        order := [coordinate];
      }
    }

    /** The body of the flood fill for one closed Empty position: collect its
        closed neighbours, count the black holes among them, store the count,
        open the cell and take it off the count of cells to open. */
    method OpenCell(coordinate: Coord) returns (adjacentCoordinates: seq<Coord>, adjacentBlackHolesCount: byte)
      requires Ready() && InBounds(length, coordinate)
      requires Unopened(Snap(), coordinate) && Snap()[coordinate].content == Empty
      modifies this`cellsToOpen, slot.Keys
      ensures Ready()
      ensures adjacentCoordinates == Candidates(old(Snap()), coordinate)
      ensures adjacentBlackHolesCount as nat == HazardsAmong(old(Snap()), adjacentCoordinates)
      ensures old(InPlay(Snap())) ==> adjacentBlackHolesCount as nat == |AdjacentHazards(old(Snap()), coordinate)|
      ensures old(InPlay(Snap())) ==> InPlay(Snap())
      ensures Snap() == OpenedAt(old(Snap()), coordinate, adjacentBlackHolesCount as nat)
      ensures cellsToOpen == old(cellsToOpen) - 1
    {
      ghost var g := Snap();
      adjacentCoordinates, adjacentBlackHolesCount := CountAround(coordinate);
      assert Snap() == g;
      ghost var k := adjacentBlackHolesCount as nat;
      OpenedCellEffect(g, coordinate, k);
      var outcome := StoreCountAndOpen(coordinate, adjacentBlackHolesCount);
      assert outcome == Stored;
    }

    /** The first half of OpenCell, which changes nothing: the closed
        neighbours of `coordinate` and the number of black holes among them,
        which is the number of black holes next to it while none is Open. */
    method CountAround(coordinate: Coord) returns (adjacentCoordinates: seq<Coord>, adjacentBlackHolesCount: byte)
      requires Ready()
      ensures adjacentCoordinates == Candidates(Snap(), coordinate)
      ensures adjacentBlackHolesCount as nat == HazardsAmong(Snap(), adjacentCoordinates)
      ensures NoHazardOpen(Snap()) ==> adjacentBlackHolesCount as nat == |AdjacentHazards(Snap(), coordinate)|
      ensures adjacentBlackHolesCount <= MaxAdjacentCellsCount
    {
      ghost var g := Snap();
      if NoHazardOpen(g) {
        CandidateHazards(g, coordinate);
      }
      adjacentCoordinates := CollectAdjacent(coordinate);
      assert Snap() == g;
      adjacentBlackHolesCount := CountBlackHoles(adjacentCoordinates);
      assert Snap() == g;
    }

    /** The neighbours of `coordinate` that are on the board and not Open,
        in the order north, south, west, east, north-west, north-east,
        south-west, south-east. */
    method CollectAdjacent(coordinate: Coord) returns (adjacentCoordinates: seq<Coord>)
      requires Valid() && Filled()
      ensures adjacentCoordinates == Candidates(Snap(), coordinate)
    {
      var x, y := coordinate.x, coordinate.y;
      // the number of directions looked at so far
      ghost var k := 0;
      adjacentCoordinates := [];

      var northCoordinates := Coord(x, y + 1);
      adjacentCoordinates := CollectIfClosed(coordinate, adjacentCoordinates, northCoordinates, k);
      k := k + 1;

      var southCoordinates := Coord(x, y - 1);
      adjacentCoordinates := CollectIfClosed(coordinate, adjacentCoordinates, southCoordinates, k);
      k := k + 1;

      var westCoordinates := Coord(x - 1, y);
      adjacentCoordinates := CollectIfClosed(coordinate, adjacentCoordinates, westCoordinates, k);
      k := k + 1;

      var eastCoordinates := Coord(x + 1, y);
      adjacentCoordinates := CollectIfClosed(coordinate, adjacentCoordinates, eastCoordinates, k);
      k := k + 1;

      var northWestCoordinates := Coord(x - 1, y + 1);
      adjacentCoordinates := CollectIfClosed(coordinate, adjacentCoordinates, northWestCoordinates, k);
      k := k + 1;

      var northEastCoordinates := Coord(x + 1, y + 1);
      adjacentCoordinates := CollectIfClosed(coordinate, adjacentCoordinates, northEastCoordinates, k);
      k := k + 1;

      var southWestCoordinates := Coord(x - 1, y - 1);
      adjacentCoordinates := CollectIfClosed(coordinate, adjacentCoordinates, southWestCoordinates, k);
      k := k + 1;

      var southEastCoordinates := Coord(x + 1, y - 1);
      adjacentCoordinates := CollectIfClosed(coordinate, adjacentCoordinates, southEastCoordinates, k);
    }

    /** One of the eight checks of CollectAdjacent: `n`, the neighbour in
        direction k, is appended when it is on the board and not Open. */
    function CollectIfClosed(coordinate: Coord, adjacentCoordinates: seq<Coord>, n: Coord, ghost k: nat): (r: seq<Coord>)
      reads this`slot, this`blackHolesCoordinates, board, slot.Keys
      requires Valid() && Filled()
      requires k < |Directions| && n == Neighbour(coordinate, k)
      requires adjacentCoordinates == Gather(Snap(), coordinate, k)
      ensures r == Gather(Snap(), coordinate, k + 1)
    {
      if IsInBounds(n) && !IsOpen(n) then adjacentCoordinates + [n] else adjacentCoordinates
    }

    /** The number of black holes among the collected neighbours. */
    method CountBlackHoles(adjacentCoordinates: seq<Coord>) returns (adjacentBlackHolesCount: byte)
      requires Ready() && |adjacentCoordinates| <= 8
      requires forall c :: c in adjacentCoordinates ==> InBounds(length, c)
      ensures adjacentBlackHolesCount as nat == HazardsAmong(Snap(), adjacentCoordinates) <= |adjacentCoordinates|
    {
      adjacentBlackHolesCount := 0;
      for i := 0 to |adjacentCoordinates|
        invariant adjacentBlackHolesCount as nat == HazardsAmong(Snap(), adjacentCoordinates[..i]) <= i
      {
        assert adjacentCoordinates[..i + 1][..i] == adjacentCoordinates[..i];
        if IsBlackHole(adjacentCoordinates[i]) {
          adjacentBlackHolesCount := adjacentBlackHolesCount + 1;
        }
      }
      assert adjacentCoordinates[..|adjacentCoordinates|] == adjacentCoordinates;
    }
  }
}
