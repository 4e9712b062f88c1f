/** The board as a value: a map from coordinates to cell states. Everything the
    game promises is stated here, about such values; the Game class ties its
    array of cells to them. */
module Grid {
  import opened Cells

  datatype Coord = Coord(x: int, y: int)

  /** The state of every position of a board. */
  type Board = map<Coord, CellState>

  predicate InBounds(length: int, c: Coord) {
    0 <= c.x < length && 0 <= c.y < length
  }

  /** The positions of a length-by-length board. */
  function AllCoords(length: int): (s: set<Coord>)
    ensures forall c :: c in s <==> InBounds(length, c)
  {
    var s := set x, y | 0 <= x < length && 0 <= y < length :: Coord(x, y);
    assert forall c :: InBounds(length, c) ==> Coord(c.x, c.y) in s;
    s
  }

  /** The positions of the first `width` columns of a board whose columns are
      `height` long. */
  ghost function Columns(width: int, height: int): (s: set<Coord>)
    ensures forall c :: c in s <==> 0 <= c.x < width && 0 <= c.y < height
  {
    var s := set x, y | 0 <= x < width && 0 <= y < height :: Coord(x, y);
    assert forall c: Coord :: 0 <= c.x < width && 0 <= c.y < height ==> Coord(c.x, c.y) in s;
    s
  }

  ghost function Column(x: int, height: int): (s: set<Coord>)
    ensures forall c :: c in s <==> c.x == x && 0 <= c.y < height
  {
    var s := set y | 0 <= y < height :: Coord(x, y);
    assert forall c: Coord :: c.x == x && 0 <= c.y < height ==> Coord(c.x, c.y) in s;
    s
  }

  lemma {:induction false} ColumnSize(x: int, height: nat)
    ensures |Column(x, height)| == height
  {
    if height > 0 {
      ColumnSize(x, height - 1);
      assert Column(x, height) == Column(x, height - 1) + {Coord(x, height - 1)};
    }
  }

  lemma {:induction false} ColumnsSize(width: nat, height: nat)
    ensures |Columns(width, height)| == width * height
  {
    if width > 0 {
      var left, last := Columns(width - 1, height), Column(width - 1, height);
      ColumnsSize(width - 1, height);
      ColumnSize(width - 1, height);
      assert Columns(width, height) == left + last;
      DisjointUnionSize(left, last);
      OneMoreColumn(width - 1, height);
    }
  }

  lemma DisjointUnionSize(a: set<Coord>, b: set<Coord>)
    requires a * b == {}
    ensures |a + b| == |a| + |b|
  {
  }

  lemma OneMoreColumn(width: nat, height: nat)
    ensures width * height + height == (width + 1) * height
  {
  }

  /** A length-by-length board has length * length positions. */
  lemma AllCoordsSize(length: nat)
    ensures |AllCoords(length)| == length * length
  {
    ColumnsSize(length, length);
    assert AllCoords(length) == Columns(length, length);
  }

  // ---------------------------------------------------------------------------
  // Neighbours

  /** d touches c by a side or by a corner. */
  predicate Adjacent(c: Coord, d: Coord) {
    c != d && -1 <= d.x - c.x <= 1 && -1 <= d.y - c.y <= 1
  }

  predicate Distinct(s: seq<Coord>) {
    forall i, j :: 0 <= i < j < |s| ==> s[i] != s[j]
  }

  function Elems(s: seq<Coord>): set<Coord> {
    set d | d in s
  }

  /** The eight directions in the order the flood fill looks at them: north,
      south, west, east, north-west, north-east, south-west, south-east
      (north is y + 1). */
  const Directions: seq<(int, int)> := [(0, 1), (0, -1), (-1, 0), (1, 0), (-1, 1), (1, 1), (-1, -1), (1, -1)]

  /** The neighbour of c in direction i. */
  function Neighbour(c: Coord, i: nat): Coord
    requires i < |Directions|
  {
    Coord(c.x + Directions[i].0, c.y + Directions[i].1)
  }

  /** The neighbours of c are exactly the positions one direction away, and
      distinct directions lead to distinct positions. */
  lemma NeighboursAreAdjacent(c: Coord)
    ensures forall d :: Adjacent(c, d) <==> exists i :: 0 <= i < 8 && d == Neighbour(c, i)
    ensures forall i, j :: 0 <= i < j < 8 ==> Neighbour(c, i) != Neighbour(c, j)
  {
    forall d | Adjacent(c, d) ensures exists i :: 0 <= i < 8 && d == Neighbour(c, i) {
      var dx, dy := d.x - c.x, d.y - c.y;
      var i := if dx == 0 && dy == 1 then 0
        else if dx == 0 && dy == -1 then 1
        else if dx == -1 && dy == 0 then 2
        else if dx == 1 && dy == 0 then 3
        else if dx == -1 && dy == 1 then 4
        else if dx == 1 && dy == 1 then 5
        else if dx == -1 && dy == -1 then 6
        else 7;
      assert d == Neighbour(c, i);
    }
  }

  /** d is on the board and not Open, so the flood fill collects it. */
  predicate Unopened(g: Board, d: Coord) {
    d in g && g[d].visibility != Open
  }

  /** d as a one-element sequence when the flood fill collects it, else nothing. */
  function Collected(g: Board, d: Coord): seq<Coord> {
    if Unopened(g, d) then [d] else []
  }

  /** What the flood fill has collected around c after looking in the first
      k directions. */
  function Gather(g: Board, c: Coord, k: nat): seq<Coord>
    requires k <= |Directions|
  {
    if k == 0 then [] else Gather(g, c, k - 1) + Collected(g, Neighbour(c, k - 1))
  }

  lemma {:induction false} GatherProperties(g: Board, c: Coord, k: nat)
    requires k <= 8
    ensures forall d :: d in Gather(g, c, k) <==> Unopened(g, d) && exists i :: 0 <= i < k && d == Neighbour(c, i)
    ensures |Gather(g, c, k)| <= k
    ensures Distinct(Gather(g, c, k))
  {
    if k > 0 {
      GatherProperties(g, c, k - 1);
      NeighboursAreAdjacent(c);
    }
  }

  /** The neighbours of c that the flood fill collects, in the order it looks
      at them: every one of them exactly once. */
  function Candidates(g: Board, c: Coord): (r: seq<Coord>)
    ensures forall d :: d in r <==> Adjacent(c, d) && Unopened(g, d)
    ensures |r| <= 8 && Distinct(r)
  {
    GatherProperties(g, c, 8);
    NeighboursAreAdjacent(c);
    Gather(g, c, 8)
  }

  // ---------------------------------------------------------------------------
  // Counting black holes

  predicate HoldsBlackHole(g: Board, d: Coord) {
    d in g && g[d].content == BlackHole
  }

  /** The number of entries of cs holding a black hole. */
  function HazardsAmong(g: Board, cs: seq<Coord>): nat {
    if cs == [] then 0
    else HazardsAmong(g, cs[..|cs| - 1]) + (if HoldsBlackHole(g, cs[|cs| - 1]) then 1 else 0)
  }

  lemma {:induction false} HazardsAmongProperties(g: Board, cs: seq<Coord>)
    ensures HazardsAmong(g, cs) <= |cs|
    ensures HazardsAmong(g, cs) == 0 <==> forall d :: d in cs ==> !HoldsBlackHole(g, d)
  {
    if cs != [] {
      var p := cs[..|cs| - 1];
      HazardsAmongProperties(g, p);
      assert cs == p + [cs[|cs| - 1]];
    }
  }

  /** Over a sequence without repeats, the count is the number of distinct
      black holes listed. */
  lemma {:induction false} HazardsAmongDistinct(g: Board, cs: seq<Coord>)
    requires Distinct(cs)
    ensures HazardsAmong(g, cs) == |set d | d in cs && HoldsBlackHole(g, d)|
  {
    if cs != [] {
      var p, e := cs[..|cs| - 1], cs[|cs| - 1];
      assert Distinct(p);
      HazardsAmongDistinct(g, p);
      assert cs == p + [e];
      assert e !in p;
      var before := set d | d in p && HoldsBlackHole(g, d);
      if HoldsBlackHole(g, e) {
        assert (set d | d in cs && HoldsBlackHole(g, d)) == before + {e};
      } else {
        assert (set d | d in cs && HoldsBlackHole(g, d)) == before;
      }
    }
  }

  /** Where the black holes are. */
  function HazardSet(g: Board): set<Coord> {
    set c | c in g && g[c].content == BlackHole
  }

  /** The black holes next to c: the reference definition of a cell's count. */
  function AdjacentHazards(g: Board, c: Coord): set<Coord> {
    set d | d in g && Adjacent(c, d) && g[d].content == BlackHole
  }

  /** No black hole is Open: the game has not been lost. */
  predicate NoHazardOpen(g: Board) {
    forall c :: c in g && g[c].content == BlackHole ==> g[c].visibility != Open
  }

  /** While no black hole is Open, counting the black holes among the
      collected neighbours counts every black hole next to c, and the count
      never exceeds eight. */
  lemma CandidateHazards(g: Board, c: Coord)
    requires NoHazardOpen(g)
    ensures HazardsAmong(g, Candidates(g, c)) == |AdjacentHazards(g, c)| <= 8
  {
    var cs := Candidates(g, c);
    HazardsAmongProperties(g, cs);
    HazardsAmongDistinct(g, cs);
    assert (set d | d in cs && HoldsBlackHole(g, d)) == AdjacentHazards(g, c);
  }

  /** When no black hole is found among the collected neighbours of c, every
      one of them is an Empty cell. */
  lemma ZeroCellNeighboursEmpty(g: Board, c: Coord)
    requires HazardsAmong(g, Candidates(g, c)) == 0
    ensures forall d :: d in Candidates(g, c) ==> d in g && g[d].content == Empty
  {
    HazardsAmongProperties(g, Candidates(g, c));
  }

  /** Two boards with the same positions and contents have the same black
      holes around every position. */
  lemma SameContentsSameHazards(g: Board, h: Board)
    requires g.Keys == h.Keys
    requires forall c :: c in g ==> h[c].content == g[c].content
    ensures forall c :: AdjacentHazards(g, c) == AdjacentHazards(h, c)
    ensures HazardSet(g) == HazardSet(h)
  {
    assert HazardSet(g) == HazardSet(h);
    forall c ensures AdjacentHazards(g, c) == AdjacentHazards(h, c) {
      assert forall d :: d in AdjacentHazards(g, c) <==> d in AdjacentHazards(h, c);
    }
  }

  // ---------------------------------------------------------------------------
  // Opening cells

  /** The Empty cells still to be opened: the game's cellsToOpen counts them. */
  function ClosedEmpty(g: Board): set<Coord> {
    set c | c in g && g[c].content == Empty && g[c].visibility != Open
  }

  /** The position p after the flood fill opened it with count k. */
  function OpenedAt(g: Board, p: Coord, k: nat): (h: Board)
    requires p in g
    ensures h.Keys == g.Keys && h[p].visibility == Open && h[p].count == k
    ensures forall c :: c in g ==> h[c].content == g[c].content
  {
    g[p := CellState(g[p].content, Open, k)]
  }

  /** Opening a closed Empty cell takes exactly that cell off the to-open set. */
  lemma OpenedLeavesClosed(g: Board, p: Coord, k: nat)
    requires p in ClosedEmpty(g)
    ensures ClosedEmpty(OpenedAt(g, p, k)) == ClosedEmpty(g) - {p}
    ensures |ClosedEmpty(OpenedAt(g, p, k))| == |ClosedEmpty(g)| - 1
  {
    assert ClosedEmpty(OpenedAt(g, p, k)) == ClosedEmpty(g) - {p};
  }

  /** Every Open Empty cell shows the number of black holes next to it. */
  predicate CountsCorrect(g: Board) {
    forall c :: c in g && g[c].content == Empty && g[c].visibility == Open
      ==> g[c].count == |AdjacentHazards(g, c)|
  }

  /** The board of a game still being played. */
  predicate InPlay(g: Board) {
    NoHazardOpen(g) && CountsCorrect(g)
  }

  /** Opening an Empty cell with its true count keeps the board in play. */
  lemma OpenKeepsInPlay(g: Board, p: Coord, k: nat)
    requires InPlay(g) && p in g && g[p].content == Empty
    requires k == |AdjacentHazards(g, p)|
    ensures InPlay(OpenedAt(g, p, k))
  {
    SameContentsSameHazards(g, OpenedAt(g, p, k));
  }

  /** Opening a closed Empty cell leaves the black holes where they were and
      takes one cell off the number still to open; with its true count it
      keeps a board in play. */
  lemma OpenedCellEffect(g: Board, p: Coord, k: nat)
    requires p in ClosedEmpty(g)
    ensures InPlay(g) && k == |AdjacentHazards(g, p)| ==> InPlay(OpenedAt(g, p, k))
    ensures HazardSet(OpenedAt(g, p, k)) == HazardSet(g)
    ensures |ClosedEmpty(OpenedAt(g, p, k))| == |ClosedEmpty(g)| - 1
  {
    OpenedLeavesClosed(g, p, k);
    if InPlay(g) && k == |AdjacentHazards(g, p)| {
      OpenKeepsInPlay(g, p, k);
    }
    SameContentsSameHazards(g, OpenedAt(g, p, k));
  }

  /** c is an opened Empty cell with no black hole around it. */
  predicate ZeroCell(g: Board, c: Coord) {
    c in g && g[c].content == Empty && g[c].visibility == Open && g[c].count == 0
  }

  /** Every closed neighbour of a zero cell lies in s: s is what is left of the
      flood fill's work. */
  ghost predicate ZeroFrontierWithin(g: Board, s: set<Coord>) {
    forall c, d :: ZeroCell(g, c) && Adjacent(c, d) && Unopened(g, d) ==> d in s
  }

  /** Every neighbour of every zero cell is Open, Flagged ones included: the
      whole zero region and its border are revealed. */
  ghost predicate RegionsRevealed(g: Board) {
    ZeroFrontierWithin(g, {})
  }

  /** Opening p removes it from the frontier; when p becomes a zero cell its
      collected neighbours join the frontier, and nothing else does. */
  lemma FrontierAfterOpen(g: Board, p: Coord, k: nat, s: set<Coord>)
    requires Unopened(g, p) && ZeroFrontierWithin(g, s)
    ensures k != 0 ==> ZeroFrontierWithin(OpenedAt(g, p, k), s - {p})
    ensures ZeroFrontierWithin(OpenedAt(g, p, k), (s - {p}) + Elems(Candidates(g, p)))
  {
    var h := OpenedAt(g, p, k);
    forall c, d | ZeroCell(h, c) && Adjacent(c, d) && Unopened(h, d)
      ensures d in (s - {p}) + Elems(Candidates(g, p))
      ensures k != 0 ==> d in s - {p}
    {
      assert d != p;
      if c != p {
        assert ZeroCell(g, c) && Unopened(g, d);
      }
    }
  }

  /** The frontier may be described by any set holding its closed members. */
  lemma FrontierWeaken(g: Board, s: set<Coord>, t: set<Coord>)
    requires ZeroFrontierWithin(g, s)
    requires forall d :: d in s && Unopened(g, d) ==> d in t
    ensures ZeroFrontierWithin(g, t)
  {
  }

  /** The flood fill's bookkeeping over one batch: once entry i of the batch
      and every entry before it are Open, a frontier drawn from the pending
      work, the batch from entry i on, and `extra` lies within the pending
      work, the rest of the batch, and the entries of `more`, when `more`
      holds every member of `extra` that is not in the batch. */
  lemma BatchFrontier(h: Board, batch: seq<Coord>, i: nat, pending: set<Coord>, s: set<Coord>,
                      extra: set<Coord>, more: seq<Coord>)
    requires i < |batch|
    requires forall j :: 0 <= j <= i ==> !Unopened(h, batch[j])
    requires ZeroFrontierWithin(h, s) && s <= pending + Elems(batch[i..]) + extra
    requires forall d :: d in extra && d !in batch ==> d in more
    ensures ZeroFrontierWithin(h, pending + Elems(batch[i + 1..]) + Elems(more))
  {
    forall d | d in s && Unopened(h, d)
      ensures d in pending + Elems(batch[i + 1..]) + Elems(more)
    {
      if d in batch && d !in pending {
        var j :| 0 <= j < |batch| && batch[j] == d;
        assert batch[i + 1..][j - i - 1] == d;
      }
    }
    FrontierWeaken(h, s, pending + Elems(batch[i + 1..]) + Elems(more));
  }

  /** b follows a by opening Empty cells only: same positions and contents,
      an Open cell keeps its state, and any cell that changed is an Empty cell
      that is now Open. */
  predicate Progress(a: Board, b: Board) {
    a.Keys == b.Keys &&
    forall c :: c in a ==>
      b[c].content == a[c].content &&
      (a[c].visibility == Open ==> b[c] == a[c]) &&
      (b[c] != a[c] ==> b[c].visibility == Open && a[c].content == Empty)
  }

  lemma ProgressTransitive(a: Board, b: Board, c: Board)
    requires Progress(a, b) && Progress(b, c)
    ensures Progress(a, c)
  {
  }

  lemma OpenIsProgress(g: Board, p: Coord, k: nat)
    requires Unopened(g, p) && g[p].content == Empty
    ensures Progress(g, OpenedAt(g, p, k))
  {
  }

  /** Progress never closes a cell: the first n entries of s stay opened. */
  lemma ProgressKeepsOpened(a: Board, b: Board, s: seq<Coord>, n: nat)
    requires Progress(a, b) && n <= |s|
    requires forall j :: 0 <= j < n ==> !Unopened(a, s[j])
    ensures forall j :: 0 <= j < n ==> !Unopened(b, s[j])
  {
  }

  // ---------------------------------------------------------------------------
  // How far the flood fill reaches

  /** Entry j of `order` is next to an earlier entry that is a zero cell of b. */
  ghost predicate Reached(b: Board, order: seq<Coord>, j: nat)
    requires j < |order|
  {
    exists i :: 0 <= i < j && ZeroCell(b, order[i]) && Adjacent(order[i], order[j])
  }

  /** `order` lists every cell that changed from a to b, in an order where
      each entry is in `batch` or is next to an earlier entry that ended a
      zero cell: the flood fill reaches no other cell. */
  ghost predicate FillOrder(a: Board, b: Board, batch: set<Coord>, order: seq<Coord>) {
    (forall c :: c in a && c in b && b[c] != a[c] ==> c in order) &&
    forall j :: 0 <= j < |order| ==> order[j] in batch || Reached(b, order, j)
  }

  lemma FillOrderNone(a: Board, batch: set<Coord>)
    ensures FillOrder(a, a, batch, [])
  {
  }

  /** Opening one batch entry is reached from the batch. */
  lemma FillOrderOne(g: Board, p: Coord, k: nat, batch: set<Coord>)
    requires p in g && p in batch
    ensures FillOrder(g, OpenedAt(g, p, k), batch, [p])
  {
  }

  /** Two stretches of the flood fill in a row: the second stretch's batch is
      in the first one's batch or next to a zero cell the first one opened. */
  lemma FillOrderAppend(a: Board, b: Board, c: Board, batch: set<Coord>, o1: seq<Coord>,
                        more: set<Coord>, o2: seq<Coord>)
    requires Progress(a, b) && Progress(b, c)
    requires FillOrder(a, b, batch, o1) && FillOrder(b, c, more, o2)
    requires forall d :: d in more ==> d in batch || exists i :: 0 <= i < |o1| && ZeroCell(b, o1[i]) && Adjacent(o1[i], d)
    ensures FillOrder(a, c, batch, o1 + o2)
  {
    var o := o1 + o2;
    forall j | 0 <= j < |o| && o[j] !in batch ensures Reached(c, o, j) {
      if j < |o1| {
        assert Reached(b, o1, j);
        var i :| 0 <= i < j && ZeroCell(b, o1[i]) && Adjacent(o1[i], o1[j]);
        assert o[i] == o1[i] && ZeroCell(c, o[i]);
      } else {
        var j2 := j - |o1|;
        assert o[j] == o2[j2];
        if o2[j2] in more {
          var i :| 0 <= i < |o1| && ZeroCell(b, o1[i]) && Adjacent(o1[i], o2[j2]);
          assert o[i] == o1[i] && ZeroCell(c, o[i]);
        } else {
          assert Reached(c, o2, j2);
          var i :| 0 <= i < j2 && ZeroCell(c, o2[i]) && Adjacent(o2[i], o2[j2]);
          assert o[|o1| + i] == o2[i];
        }
      }
    }
    forall x | x in a && x in c && c[x] != a[x] ensures x in o {
      if b[x] != a[x] {
        assert x in o1;
      } else {
        assert x in o2;
      }
    }
  }

  /** One step of a batch loop: the fill from entry i joins the fill so far. */
  lemma BatchStep(a: Board, b: Board, c: Board, batch: seq<Coord>, o1: seq<Coord>, i: nat, o2: seq<Coord>)
    requires i < |batch| && Progress(a, b) && Progress(b, c)
    requires FillOrder(a, b, Elems(batch), o1) && FillOrder(b, c, {batch[i]}, o2)
    ensures Progress(a, c) && FillOrder(a, c, Elems(batch), o1 + o2)
  {
    assert batch[i] in Elems(batch);
    FillOrderAppend(a, b, c, Elems(batch), o1, {batch[i]}, o2);
  }

  /** A zero cell's step: p is opened with count 0, then the recursion
      continues from positions next to p. */
  lemma FillAfterZero(g: Board, p: Coord, c: Board, more: seq<Coord>, o: seq<Coord>)
    requires Unopened(g, p) && g[p].content == Empty
    requires Progress(OpenedAt(g, p, 0), c)
    requires forall d :: d in more ==> Adjacent(p, d)
    requires FillOrder(OpenedAt(g, p, 0), c, Elems(more), o)
    ensures FillOrder(g, c, {p}, [p] + o)
  {
    var h := OpenedAt(g, p, 0);
    FillOrderOne(g, p, 0, {p});
    OpenIsProgress(g, p, 0);
    assert [p][0] == p && ZeroCell(h, p);
    FillOrderAppend(g, h, c, {p}, [p], Elems(more), o);
  }

  /** Entries reached from a single cell that is not a zero cell are that
      cell itself. */
  lemma {:induction false} OnlyStart(a: Board, b: Board, p: Coord, o: seq<Coord>, j: nat)
    requires FillOrder(a, b, {p}, o) && !ZeroCell(b, p) && j < |o|
    ensures o[j] == p
    decreases j
  {
    if o[j] != p {
      assert Reached(b, o, j);
      var i :| 0 <= i < j && ZeroCell(b, o[i]) && Adjacent(o[i], o[j]);
      OnlyStart(a, b, p, o, i);
      assert false;
    }
  }

  /** A move on a cell whose count is not zero opens that cell only: cells
      with a count do not propagate the flood fill. */
  lemma FillStopsAtCount(a: Board, b: Board, p: Coord, o: seq<Coord>)
    requires FillOrder(a, b, {p}, o) && !ZeroCell(b, p)
    ensures forall c :: c in a && c in b && b[c] != a[c] ==> c == p
  {
    forall c | c in a && c in b && b[c] != a[c] ensures c == p {
      var j :| 0 <= j < |o| && o[j] == c;
      OnlyStart(a, b, p, o, j);
    }
  }

  /** A finished flood fill on a board in play: every batch entry and every
      neighbour of a zero cell is Open, and every cell that changed was
      reached. */
  ghost predicate FillDone(a: Board, b: Board, batch: set<Coord>, order: seq<Coord>) {
    Progress(a, b) && InPlay(b) && RegionsRevealed(b) && FillOrder(a, b, batch, order) &&
    forall c :: c in batch ==> c in b && b[c].visibility == Open
  }

  /** Each entry of a finished fill is Open (or off the board) on any other
      finished fill from the same board and batch. */
  lemma {:induction false} ReachedOpen(a: Board, b1: Board, o1: seq<Coord>, b2: Board, o2: seq<Coord>,
                                       batch: set<Coord>, j: nat)
    requires FillDone(a, b1, batch, o1) && FillDone(a, b2, batch, o2) && j < |o1|
    ensures !Unopened(b2, o1[j])
    decreases j
  {
    if o1[j] !in batch {
      assert Reached(b1, o1, j);
      var i :| 0 <= i < j && ZeroCell(b1, o1[i]) && Adjacent(o1[i], o1[j]);
      ReachedOpen(a, b1, o1, b2, o2, batch, i);
      var z := o1[i];
      SameContentsSameHazards(b1, b2);
      assert b2[z].count == |AdjacentHazards(b2, z)| == |AdjacentHazards(b1, z)| == b1[z].count;
      assert ZeroCell(b2, z);
      assert !Unopened(b2, o1[j]);
    } else {
      assert o1[j] in batch;
    }
  }

  /** The flood fill's outcome is determined: two finished fills from the same
      board and batch give the same board. */
  lemma FillDetermined(a: Board, b1: Board, o1: seq<Coord>, b2: Board, o2: seq<Coord>, batch: set<Coord>)
    requires FillDone(a, b1, batch, o1) && FillDone(a, b2, batch, o2)
    ensures b1 == b2
  {
    SameContentsSameHazards(b1, b2);
    forall c | c in a ensures b1[c] == b2[c] {
      if b1[c] != a[c] {
        var j :| 0 <= j < |o1| && o1[j] == c;
        ReachedOpen(a, b1, o1, b2, o2, batch, j);
      }
      if b2[c] != a[c] {
        var j :| 0 <= j < |o2| && o2[j] == c;
        ReachedOpen(a, b2, o2, b1, o1, batch, j);
      }
    }
  }

  // ---------------------------------------------------------------------------
  // Flags

  /** Flag: a Hidden cell becomes Flagged; any other board is left as it is. */
  function FlagAt(g: Board, c: Coord): Board {
    if c in g && g[c].visibility == Hidden then g[c := g[c].(visibility := Flagged)] else g
  }

  /** UnFlag: a Flagged cell becomes Hidden; any other board is left as it is. */
  function UnFlagAt(g: Board, c: Coord): Board {
    if c in g && g[c].visibility == Flagged then g[c := g[c].(visibility := Hidden)] else g
  }

  /** The two boards differ at most in Hidden versus Flagged. */
  predicate SameOpen(g: Board, h: Board) {
    g.Keys == h.Keys &&
    forall c :: c in g ==>
      h[c].content == g[c].content && h[c].count == g[c].count &&
      (h[c].visibility == Open <==> g[c].visibility == Open)
  }

  /** Flagging and unflagging touch neither Open cells, nor contents, nor
      counts, and change nothing but the target. */
  lemma FlagsKeepOpen(g: Board, c: Coord)
    ensures SameOpen(g, FlagAt(g, c)) && SameOpen(g, UnFlagAt(g, c))
    ensures forall d :: d in g && d != c ==> FlagAt(g, c)[d] == g[d] && UnFlagAt(g, c)[d] == g[d]
    ensures c in g && g[c].visibility != Hidden ==> FlagAt(g, c) == g
    ensures c in g && g[c].visibility != Flagged ==> UnFlagAt(g, c) == g
  {
  }

  /** Flagging a Hidden cell and unflagging it restores the board, and the
      other way round for a Flagged cell. */
  lemma FlagRoundTrip(g: Board, c: Coord)
    requires c in g
    ensures g[c].visibility == Hidden ==> UnFlagAt(FlagAt(g, c), c) == g
    ensures g[c].visibility == Flagged ==> FlagAt(UnFlagAt(g, c), c) == g
  {
    if g[c].visibility == Hidden {
      assert UnFlagAt(FlagAt(g, c), c)[c] == g[c];
    }
    if g[c].visibility == Flagged {
      assert FlagAt(UnFlagAt(g, c), c)[c] == g[c];
    }
  }

  /** Everything the game keeps about a board survives a change that only
      toggles flags. */
  lemma SameOpenKeepsInvariants(g: Board, h: Board)
    requires SameOpen(g, h)
    ensures ClosedEmpty(g) == ClosedEmpty(h)
    ensures InPlay(g) <==> InPlay(h)
    ensures RegionsRevealed(g) <==> RegionsRevealed(h)
  {
    SameContentsSameHazards(g, h);
    assert forall c :: Unopened(g, c) <==> Unopened(h, c);
    assert forall c :: ZeroCell(g, c) <==> ZeroCell(h, c);
  }

  // ---------------------------------------------------------------------------
  // Losing

  /** The board after a lost move: every black hole is Open. */
  function RevealHazards(g: Board): Board {
    map c | c in g :: if g[c].content == BlackHole then g[c].(visibility := Open) else g[c]
  }

  /** Losing opens every black hole, changes no Empty cell, leaves the
      number of cells to open as it was and keeps every zero region revealed. */
  lemma RevealHazardsEffect(g: Board)
    ensures RevealHazards(g).Keys == g.Keys
    ensures forall c :: HoldsBlackHole(g, c) ==> RevealHazards(g)[c].visibility == Open
    ensures forall c :: c in g && g[c].content == Empty ==> RevealHazards(g)[c] == g[c]
    ensures ClosedEmpty(RevealHazards(g)) == ClosedEmpty(g)
    ensures HazardSet(RevealHazards(g)) == HazardSet(g)
    ensures (exists c :: HoldsBlackHole(g, c)) ==> !NoHazardOpen(RevealHazards(g))
    ensures RegionsRevealed(g) ==> RegionsRevealed(RevealHazards(g))
  {
    assert ClosedEmpty(RevealHazards(g)) == ClosedEmpty(g);
    assert HazardSet(RevealHazards(g)) == HazardSet(g);
  }

  /** The cells of cs opened one after the other, in the order of cs. */
  function OpenEach(g: Board, cs: seq<Coord>): (h: Board)
    ensures h.Keys == g.Keys
  {
    if cs == [] then g
    else
      var before, c := OpenEach(g, cs[..|cs| - 1]), cs[|cs| - 1];
      if c in before then before[c := before[c].(visibility := Open)] else before
  }

  /** Opening the cells of cs one after the other opens exactly the cells
      listed, whatever the order and however often each is listed. */
  lemma {:induction false} OpenEachEffect(g: Board, cs: seq<Coord>)
    ensures forall c :: c in g ==>
      OpenEach(g, cs)[c] == if c in cs then g[c].(visibility := Open) else g[c]
  {
    if cs != [] {
      var p := cs[..|cs| - 1];
      OpenEachEffect(g, p);
      assert cs == p + [cs[|cs| - 1]];
    }
  }

  /** Opening every recorded black hole, one at a time, is revealing them. */
  lemma OpenEachHazardReveals(g: Board, cs: seq<Coord>)
    requires Elems(cs) == HazardSet(g)
    ensures OpenEach(g, cs) == RevealHazards(g)
  {
    OpenEachEffect(g, cs);
    forall c | c in g ensures OpenEach(g, cs)[c] == RevealHazards(g)[c] {
      assert c in cs <==> c in Elems(cs);
    }
  }

  // ---------------------------------------------------------------------------
  // Winning

  /** No cell is left to open exactly when every Empty cell is Open. */
  lemma WonIffAllEmptyOpen(g: Board)
    ensures |ClosedEmpty(g)| == 0 <==> forall c :: c in g && g[c].content == Empty ==> g[c].visibility == Open
  {
    if forall c :: c in g && g[c].content == Empty ==> g[c].visibility == Open {
      assert ClosedEmpty(g) == {};
    } else {
      var c :| c in g && g[c].content == Empty && g[c].visibility != Open;
      assert c in ClosedEmpty(g);
    }
  }

  // ---------------------------------------------------------------------------
  // Placing black holes

  /** The distinct elements of s, each where it first occurs. */
  function Dedup(s: seq<Coord>): seq<Coord> {
    if s == [] then []
    else
      var d := Dedup(s[..|s| - 1]);
      if s[|s| - 1] in d then d else d + [s[|s| - 1]]
  }

  lemma {:induction false} DedupProperties(s: seq<Coord>)
    ensures Elems(Dedup(s)) == Elems(s)
    ensures Distinct(Dedup(s))
  {
    if s != [] {
      var p := s[..|s| - 1];
      DedupProperties(p);
      assert s == p + [s[|s| - 1]];
      assert Elems(s) == Elems(p) + {s[|s| - 1]};
    }
  }

  /** Deduplicating a prefix gives a prefix of the deduplicated whole. */
  lemma {:induction false} DedupPrefix(s: seq<Coord>, k: nat)
    requires k <= |s|
    ensures |Dedup(s[..k])| <= |Dedup(s)|
    ensures Dedup(s)[..|Dedup(s[..k])|] == Dedup(s[..k])
  {
    if k < |s| {
      DedupPrefix(s[..|s| - 1], k);
      assert s[..|s| - 1][..k] == s[..k];
    } else {
      assert s[..k] == s;
    }
  }

  /** A sequence without repeats has as many elements as entries. */
  lemma {:induction false} DistinctSize(s: seq<Coord>)
    requires Distinct(s)
    ensures |Elems(s)| == |s|
  {
    if s != [] {
      var p := s[..|s| - 1];
      DistinctSize(p);
      assert s == p + [s[|s| - 1]];
      assert s[|s| - 1] !in p;
      assert Elems(s) == Elems(p) + {s[|s| - 1]};
    }
  }

  /** The black holes a sequence of random draws places: the first n distinct
      draws, in the order they were drawn. */
  function Placement(draws: seq<Coord>, n: nat): (r: seq<Coord>)
    requires n <= |Elems(draws)|
    ensures |r| == n && Distinct(r)
    ensures forall d :: d in r ==> d in draws
  {
    DedupProperties(draws);
    DistinctSize(Dedup(draws));
    assert forall d :: d in Dedup(draws)[..n] ==> d in Elems(Dedup(draws));
    Dedup(draws)[..n]
  }

}
