/** Value-level model of a Pipopipette board (Board.swift, BoardCell.swift and
    the connection list of Dot.swift).

    A board of `size` dots per side has a `size` x `size` grid of dots and a
    (`size`-1) x (`size`-1) grid of cells. Every dot keeps the list of the dots
    it is connected to; every cell keeps four side flags and a point value. The
    board also keeps both players' scores, whose turn it is, the last move and
    the search depth.

    The functions here are the specification that the classes in Dots, Cells
    and Boards are proved against, and the lemmas state what the game promises:
    adjacency, which cells an edge touches, who is credited, and that the
    scores always add up to the value of the closed cells. */
module BoardModel {

  datatype Option<T> = None | Some(value: T)

  /** A dot's position: row `x` and column `y`, both counted from 0. */
  datatype Coord = Coord(x: int, y: int)

  /** The two dots a move connected, in the order the mover named them. */
  datatype Move = Move(first: Coord, second: Coord)

  datatype Side = Top | Right | Bottom | Left

  /** The state of one BoardCell: its number, its point value and its four
      side flags. (Its border dots never change; the BoardCell keeps them.) */
  datatype Cell = Cell(num: int, score: int, top: bool, right: bool, bottom: bool, left: bool)

  /** The side `side` of cell (`i`, `j`). */
  datatype Touch = Touch(i: int, j: int, side: Side)

  /** The state of a Board. `conns[x][y]` is the connection list of dot
      (x, y), in the order the connections were made. */
  datatype BoardState = BoardState(
    size: int,
    conns: seq<seq<seq<Coord>>>,
    cells: seq<seq<Cell>>,
    humanScore: int,
    computerScore: int,
    isComputerTurn: bool,
    lastMove: Option<Move>,
    ply: int)

  // ---------------------------------------------------------------------
  // Geometry of the grid
  // ---------------------------------------------------------------------

  predicate InRange(n: int, p: Coord) {
    0 <= p.x < n && 0 <= p.y < n
  }

  predicate InCells(n: int, i: int, j: int) {
    0 <= i < n - 1 && 0 <= j < n - 1
  }

  function Abs(k: int): nat {
    if k < 0 then -k else k
  }

  function Min(a: int, b: int): int {
    if a <= b then a else b
  }

  /** p and q are one step apart, horizontally or vertically. */
  predicate Neighbours(p: Coord, q: Coord) {
    Abs(p.x - q.x) + Abs(p.y - q.y) == 1
  }

  /** Rank of the step from p to its neighbour q: up, right, down, left. */
  function Direction(p: Coord, q: Coord): int {
    if q == Coord(p.x - 1, p.y) then 0
    else if q == Coord(p.x, p.y + 1) then 1
    else if q == Coord(p.x + 1, p.y) then 2
    else 3
  }

  /** The dots next to p (Board.getAdjacents): the four steps up, right,
      down and left, each kept when it stays on the board. */
  function Adjacents(n: int, p: Coord): seq<Coord> {
    (if p.x - 1 >= 0 then [Coord(p.x - 1, p.y)] else []) +
    (if p.y + 1 < n then [Coord(p.x, p.y + 1)] else []) +
    (if p.x + 1 < n then [Coord(p.x + 1, p.y)] else []) +
    (if p.y - 1 >= 0 then [Coord(p.x, p.y - 1)] else [])
  }

  /** For a dot of the board, those are exactly its neighbours on the
      board. */
  lemma AdjacentsMembers(n: int, p: Coord)
    requires InRange(n, p)
    ensures forall q :: q in Adjacents(n, p) <==> InRange(n, q) && Neighbours(p, q)
  {
  }

  /** They are listed up, right, down, left. */
  lemma AdjacentsOrdered(n: int, p: Coord)
    ensures forall k, l :: 0 <= k < l < |Adjacents(n, p)| ==>
      Direction(p, Adjacents(n, p)[k]) < Direction(p, Adjacents(n, p)[l])
  {
  }

  /** Two at a corner, three on a side and four inside. */
  lemma AdjacentsCount(n: int, p: Coord)
    requires InRange(n, p) && n >= 2
    ensures |Adjacents(n, p)| == 4 - (if p.x == 0 || p.x == n - 1 then 1 else 0)
                                  - (if p.y == 0 || p.y == n - 1 then 1 else 0)
  {
  }

  /** a and b are dots of the board one step apart. */
  predicate Adjacent(n: int, a: Coord, b: Coord) {
    InRange(n, a) && InRange(n, b) && Neighbours(a, b)
  }

  /** Board.areAdjacent: `b` is among the dots next to `a`, which is to say
      the two are dots of the board one step apart. */
  function AreAdjacent(n: int, a: Coord, b: Coord): (r: bool)
    ensures r <==> Adjacent(n, a, b)
  {
    InRange(n, a) && (AdjacentsMembers(n, a); b in Adjacents(n, a))
  }

  /** areAdjacent does not depend on the order of its arguments. */
  lemma AreAdjacentSymmetric(n: int, a: Coord, b: Coord)
    ensures AreAdjacent(n, a, b) <==> AreAdjacent(n, b, a)
  {
    assert Neighbours(a, b) <==> Neighbours(b, a);
  }

  /** The four dots around cell (i, j), as the game lays them out:
      top-left, top-right, bottom-left, bottom-right. */
  function BorderDotsOf(i: int, j: int): seq<Coord> {
    [Coord(i, j), Coord(i, j + 1), Coord(i + 1, j), Coord(i + 1, j + 1)]
  }

  /** The edge that forms side `side` of cell (i, j), named by two of the
      cell's border dots. */
  function SideEdge(i: int, j: int, side: Side): (e: Move)
    ensures var d := BorderDotsOf(i, j);
      e == match side
           case Top => Move(d[0], d[1])
           case Bottom => Move(d[2], d[3])
           case Left => Move(d[0], d[2])
           case Right => Move(d[1], d[3])
  {
    match side
    case Top => Move(Coord(i, j), Coord(i, j + 1))
    case Bottom => Move(Coord(i + 1, j), Coord(i + 1, j + 1))
    case Left => Move(Coord(i, j), Coord(i + 1, j))
    case Right => Move(Coord(i, j + 1), Coord(i + 1, j + 1))
  }

  /** `e` joins `a` and `b`, in either order. */
  predicate SameEdge(e: Move, a: Coord, b: Coord) {
    (e.first == a && e.second == b) || (e.first == b && e.second == a)
  }

  /** The edge {a, b} lies on the boundary of the board. */
  predicate OnBorder(n: int, a: Coord, b: Coord) {
    if a.x == b.x then a.x == 0 || a.x == n - 1 else a.y == 0 || a.y == n - 1
  }

  // ---------------------------------------------------------------------
  // Shape of a board and its connections
  // ---------------------------------------------------------------------

  ghost predicate Shaped(s: BoardState) {
    s.size >= 1 &&
    |s.conns| == s.size &&
    (forall x :: 0 <= x < s.size ==> |s.conns[x]| == s.size) &&
    |s.cells| == s.size - 1 &&
    (forall i :: 0 <= i < s.size - 1 ==> |s.cells[i]| == s.size - 1)
  }

  /** Dot.hasConnection, by coordinate: `b` is in the connection list of `a`. */
  ghost predicate Connected(s: BoardState, a: Coord, b: Coord)
    requires Shaped(s)
  {
    InRange(s.size, a) && b in s.conns[a.x][a.y]
  }

  function AppendAt(conns: seq<seq<seq<Coord>>>, p: Coord, q: Coord): seq<seq<seq<Coord>>>
    requires 0 <= p.x < |conns| && 0 <= p.y < |conns[p.x]|
  {
    conns[p.x := conns[p.x][p.y := conns[p.x][p.y] + [q]]]
  }

  /** Dot.connect followed by Dot.registerConnection: nothing happens when
      `b` is already in the list of `a`; otherwise the link is recorded on
      both dots, and only that link is added. */
  ghost function Connect(s: BoardState, a: Coord, b: Coord): (r: BoardState)
    requires Shaped(s) && InRange(s.size, a) && InRange(s.size, b)
    ensures Shaped(r) && r == s.(conns := r.conns)
    ensures Connected(s, a, b) ==> r == s
    ensures !Connected(s, a, b) ==>
      forall p, q :: Connected(r, p, q) <==> Connected(s, p, q) || (p == a && q == b) || (p == b && q == a)
  {
    if b in s.conns[a.x][a.y] then s
    else s.(conns := AppendAt(AppendAt(s.conns, a, b), b, a))
  }

  // ---------------------------------------------------------------------
  // Cells and their flags
  // ---------------------------------------------------------------------

  predicate Closed(c: Cell) {
    c.top && c.right && c.bottom && c.left
  }

  function SideFlag(c: Cell, side: Side): bool {
    match side
    case Top => c.top
    case Right => c.right
    case Bottom => c.bottom
    case Left => c.left
  }

  /** Number and point value agree. */
  predicate SameValues(c: Cell, d: Cell) {
    c.num == d.num && c.score == d.score
  }

  function WithSide(c: Cell, side: Side): (r: Cell)
    ensures forall t :: SideFlag(r, t) == (t == side || SideFlag(c, t))
    ensures SameValues(r, c)
  {
    match side
    case Top => c.(top := true)
    case Right => c.(right := true)
    case Bottom => c.(bottom := true)
    case Left => c.(left := true)
  }

  /** The cells (and their sides) bordering the edge {a, b}, in the order
      Board.checkForSquares lists them: the top of the cell below and the
      bottom of the cell above a horizontal edge; the left of the cell to
      the right and the right of the cell to the left of a vertical edge.
      These are exactly the sides that the edge forms: one cell for an edge
      on the boundary, two otherwise. */
  function Touched(n: int, a: Coord, b: Coord): (r: seq<Touch>)
    requires Adjacent(n, a, b)
    ensures forall t :: t in r ==> InCells(n, t.i, t.j)
    ensures |r| == (if OnBorder(n, a, b) then 1 else 2)
    ensures |r| == 2 ==> r[0].i != r[1].i || r[0].j != r[1].j
  {
    if a.x == b.x then
      var m := Min(a.y, b.y);
      if a.x == 0 then [Touch(a.x, m, Top)]
      else if a.x == n - 1 then [Touch(a.x - 1, m, Bottom)]
      else [Touch(a.x, m, Top), Touch(a.x - 1, m, Bottom)]
    else
      var m := Min(a.x, b.x);
      if a.y == 0 then [Touch(m, a.y, Left)]
      else if a.y == n - 1 then [Touch(m, a.y - 1, Right)]
      else [Touch(m, a.y, Left), Touch(m, a.y - 1, Right)]
  }

  /** The touches checkForSquares lists are exactly the sides of cells that
      the edge {a, b} forms. */
  lemma TouchedSides(n: int, a: Coord, b: Coord)
    requires Adjacent(n, a, b)
    ensures forall t :: t in Touched(n, a, b) <==> InCells(n, t.i, t.j) && SameEdge(SideEdge(t.i, t.j, t.side), a, b)
  {
    forall t | t in Touched(n, a, b)
      ensures SameEdge(SideEdge(t.i, t.j, t.side), a, b)
    {
    }
    forall t: Touch | InCells(n, t.i, t.j) && SameEdge(SideEdge(t.i, t.j, t.side), a, b)
      ensures t in Touched(n, a, b)
    {
      TouchedComplete(n, a, b, t);
    }
  }

  lemma TouchedComplete(n: int, a: Coord, b: Coord, t: Touch)
    requires Adjacent(n, a, b)
    requires InCells(n, t.i, t.j) && SameEdge(SideEdge(t.i, t.j, t.side), a, b)
    ensures t in Touched(n, a, b)
  {
  }

  /** Every touch in `ts` names a cell of the board. */
  ghost predicate TouchesInCells(n: int, ts: seq<Touch>) {
    forall t :: t in ts ==> InCells(n, t.i, t.j)
  }

  /** No touch in `ts` names cell (i, j). */
  predicate Untouched(ts: seq<Touch>, i: int, j: int) {
    forall k :: 0 <= k < |ts| ==> ts[k].i != i || ts[k].j != j
  }

  /** Set one side flag of one cell (`square.top = true` and its siblings). */
  ghost function SetSide(s: BoardState, t: Touch): (r: BoardState)
    requires Shaped(s) && InCells(s.size, t.i, t.j)
    ensures Shaped(r) && r == s.(cells := r.cells)
  {
    s.(cells := s.cells[t.i := s.cells[t.i][t.j := WithSide(s.cells[t.i][t.j], t.side)]])
  }

  /** Set the flags of the touched sides, in order (MarkAllCell states
      what this does to each cell). */
  ghost function MarkAll(s: BoardState, ts: seq<Touch>): (r: BoardState)
    requires Shaped(s) && TouchesInCells(s.size, ts)
    ensures Shaped(r) && r == s.(cells := r.cells)
    decreases |ts|
  {
    if ts == [] then s
    else SetSide(MarkAll(s, ts[..|ts| - 1]), ts[|ts| - 1])
  }

  /** Marking sets exactly the touched sides of a cell; its number and
      point value stay, and a cell no touch names is unchanged. */
  lemma {:induction false} MarkAllCell(s: BoardState, ts: seq<Touch>, i: int, j: int)
    requires Shaped(s) && TouchesInCells(s.size, ts) && InCells(s.size, i, j)
    ensures SameValues(MarkAll(s, ts).cells[i][j], s.cells[i][j])
    ensures forall side ::
              SideFlag(MarkAll(s, ts).cells[i][j], side) == (SideFlag(s.cells[i][j], side) || Touch(i, j, side) in ts)
    ensures Untouched(ts, i, j) ==> MarkAll(s, ts).cells[i][j] == s.cells[i][j]
    decreases |ts|
  {
    if ts != [] {
      var pre := ts[..|ts| - 1];
      var t := ts[|ts| - 1];
      assert ts == pre + [t];
      MarkAllCell(s, pre, i, j);
      var c := MarkAll(s, ts).cells[i][j];
      var d := s.cells[i][j];
      if Untouched(ts, i, j) {
        assert forall k :: 0 <= k < |ts| ==> ts[k].i != i || ts[k].j != j;
        assert SideFlag(c, Top) == SideFlag(d, Top) && SideFlag(c, Right) == SideFlag(d, Right);
        assert SideFlag(c, Bottom) == SideFlag(d, Bottom) && SideFlag(c, Left) == SideFlag(d, Left);
      }
    }
  }

  /** The point value a cell is worth to the scores: its score once closed. */
  function CellValue(c: Cell): int {
    if Closed(c) then c.score else 0
  }

  /** The value of the cell a touch names (0 off the grid). */
  function TouchValue(cells: seq<seq<Cell>>, t: Touch): int {
    if 0 <= t.i < |cells| && 0 <= t.j < |cells[t.i]| then CellValue(cells[t.i][t.j]) else 0
  }

  /** Sum of the values of the touched cells. */
  function Gain(cells: seq<seq<Cell>>, ts: seq<Touch>): int
    decreases |ts|
  {
    if ts == [] then 0
    else Gain(cells, ts[..|ts| - 1]) + TouchValue(cells, ts[|ts| - 1])
  }

  /** Board.fillSquare: a closed cell's score goes to the player whose turn
      it is. */
  ghost function FillSquare(s: BoardState, i: int, j: int): (r: BoardState)
    requires Shaped(s) && InCells(s.size, i, j)
  {
    var c := s.cells[i][j];
    if Closed(c) then
      if s.isComputerTurn then s.(computerScore := s.computerScore + c.score)
      else s.(humanScore := s.humanScore + c.score)
    else s
  }

  /** Board.fillSquare on every touched cell, in order: the player whose
      turn it is gains the value of the touched cells, the other player
      gains nothing, and nothing else changes. */
  ghost function FillAll(s: BoardState, ts: seq<Touch>): (r: BoardState)
    requires Shaped(s) && TouchesInCells(s.size, ts)
    ensures r == s.(humanScore := r.humanScore, computerScore := r.computerScore)
    ensures r.computerScore == s.computerScore + (if s.isComputerTurn then Gain(s.cells, ts) else 0)
    ensures r.humanScore == s.humanScore + (if s.isComputerTurn then 0 else Gain(s.cells, ts))
    decreases |ts|
  {
    if ts == [] then s
    else
      var t := ts[|ts| - 1];
      FillSquare(FillAll(s, ts[..|ts| - 1]), t.i, t.j)
  }

  /** Board.checkForSquares: set the flags of the sides the edge {a, b}
      forms, then credit the cells it touched. The sides set are exactly
      the sides that {a, b} forms; the mover gains the value of the
      touched cells, the other player gains nothing; connections, turn,
      last move and depth are unchanged. */
  ghost function CheckForSquares(s: BoardState, a: Coord, b: Coord): (r: BoardState)
    requires Shaped(s) && Adjacent(s.size, a, b)
    ensures Shaped(r) && r == s.(cells := r.cells, humanScore := r.humanScore, computerScore := r.computerScore)
    ensures r.computerScore == s.computerScore + (if s.isComputerTurn then Gain(r.cells, Touched(s.size, a, b)) else 0)
    ensures r.humanScore == s.humanScore + (if s.isComputerTurn then 0 else Gain(r.cells, Touched(s.size, a, b)))
  {
    var ts := Touched(s.size, a, b);
    FillAll(MarkAll(s, ts), ts)
  }

  /** The sides checkForSquares sets are exactly the sides the edge {a, b}
      forms; no cell's number or point value changes. */
  lemma CheckForSquaresCells(s: BoardState, a: Coord, b: Coord)
    requires Shaped(s) && Adjacent(s.size, a, b)
    ensures var r := CheckForSquares(s, a, b);
      forall i, j, side :: InCells(s.size, i, j) ==>
        SideFlag(r.cells[i][j], side) == (SideFlag(s.cells[i][j], side) || SameEdge(SideEdge(i, j, side), a, b))
    ensures var r := CheckForSquares(s, a, b);
      forall i, j :: InCells(s.size, i, j) ==> SameValues(r.cells[i][j], s.cells[i][j])
  {
    var ts := Touched(s.size, a, b);
    TouchedSides(s.size, a, b);
    forall i, j | InCells(s.size, i, j)
      ensures SameValues(CheckForSquares(s, a, b).cells[i][j], s.cells[i][j])
      ensures forall side ::
                SideFlag(CheckForSquares(s, a, b).cells[i][j], side) ==
                (SideFlag(s.cells[i][j], side) || SameEdge(SideEdge(i, j, side), a, b))
    {
      MarkAllCell(s, ts, i, j);
    }
  }

  // ---------------------------------------------------------------------
  // Moves
  // ---------------------------------------------------------------------

  /** The three steps every move takes: connect the dots, record the move,
      check for filled cells. */
  ghost function PlayEdge(s: BoardState, a: Coord, b: Coord): BoardState
    requires Shaped(s) && Adjacent(s.size, a, b)
  {
    CheckForSquares(Connect(s, a, b).(lastMove := Some(Move(a, b))), a, b)
  }

  /** Board.initiateHumanMove without the hand-over to the computer: ignored
      on the computer's turn; otherwise the human plays the edge and the
      turn passes to the computer. */
  ghost function InitiateHumanMove(s: BoardState, a: Coord, b: Coord): BoardState
    requires Shaped(s) && Adjacent(s.size, a, b)
  {
    if s.isComputerTurn then s
    else PlayEdge(s, a, b).(isComputerTurn := true)
  }

  /** Board.simulateHumanMove: the human plays the edge whatever the turn
      flag said, and the turn passes to the computer. */
  ghost function SimulateHumanMove(s: BoardState, a: Coord, b: Coord): (r: BoardState)
    requires Shaped(s) && Adjacent(s.size, a, b)
    ensures Shaped(r) && r.size == s.size && r.lastMove == Some(Move(a, b))
  {
    PlayEdge(s.(isComputerTurn := false), a, b).(isComputerTurn := true)
  }

  /** Board.initiateComputerMove: the computer plays the edge and the turn
      passes to the human. */
  ghost function InitiateComputerMove(s: BoardState, a: Coord, b: Coord): (r: BoardState)
    requires Shaped(s) && Adjacent(s.size, a, b)
    ensures Shaped(r) && r.size == s.size && r.lastMove == Some(Move(a, b))
  {
    PlayEdge(s.(isComputerTurn := true), a, b).(isComputerTurn := false)
  }

  /** Board.copy: everything is carried over except the turn flag, which a
      new Board starts with false. The source dereferences the last move,
      so there must be one. */
  ghost function Copy(s: BoardState): BoardState
    requires s.lastMove.Some?
  {
    s.(isComputerTurn := false)
  }

  // ---------------------------------------------------------------------
  // Score conservation
  // ---------------------------------------------------------------------

  function RowSum(row: seq<Cell>): int {
    if row == [] then 0 else CellValue(row[0]) + RowSum(row[1..])
  }

  /** Sum of the scores of the closed cells. */
  function ClosedSum(cells: seq<seq<Cell>>): int {
    if cells == [] then 0 else RowSum(cells[0]) + ClosedSum(cells[1..])
  }

  ghost predicate ConnsSymmetric(s: BoardState)
    requires Shaped(s)
  {
    forall p, q :: Connected(s, p, q) ==> Connected(s, q, p)
  }

  /** Every side flag of every cell says whether the edge forming that side
      is connected. */
  ghost predicate FlagsMatch(s: BoardState)
    requires Shaped(s)
  {
    forall i, j, side :: InCells(s.size, i, j) ==>
      SideFlag(s.cells[i][j], side) == Connected(s, SideEdge(i, j, side).first, SideEdge(i, j, side).second)
  }

  ghost predicate ScoresPositive(s: BoardState)
    requires Shaped(s)
  {
    forall i, j :: InCells(s.size, i, j) ==> s.cells[i][j].score >= 1
  }

  /** The board invariant of the game: connections are symmetric, the cell
      flags agree with the connections, and the two scores add up to the
      value of the closed cells, so each closed cell has been credited once. */
  ghost predicate Sound(s: BoardState) {
    Shaped(s) && ConnsSymmetric(s) && FlagsMatch(s) && ScoresPositive(s) &&
    s.humanScore + s.computerScore == ClosedSum(s.cells)
  }

  lemma {:induction false} RowSumUpdate(row: seq<Cell>, j: int, c: Cell)
    requires 0 <= j < |row|
    ensures RowSum(row[j := c]) == RowSum(row) - CellValue(row[j]) + CellValue(c)
  {
    if j == 0 {
      assert row[j := c][1..] == row[1..];
    } else {
      RowSumUpdate(row[1..], j - 1, c);
      assert row[j := c][1..] == row[1..][j - 1 := c];
    }
  }

  lemma {:induction false} ClosedSumUpdate(cells: seq<seq<Cell>>, i: int, j: int, c: Cell)
    requires 0 <= i < |cells| && 0 <= j < |cells[i]|
    ensures ClosedSum(cells[i := cells[i][j := c]]) == ClosedSum(cells) - CellValue(cells[i][j]) + CellValue(c)
  {
    var updated := cells[i := cells[i][j := c]];
    if i == 0 {
      RowSumUpdate(cells[0], j, c);
      assert updated[1..] == cells[1..];
    } else {
      ClosedSumUpdate(cells[1..], i - 1, j, c);
      assert updated[1..] == cells[1..][i - 1 := cells[i][j := c]];
    }
  }

  lemma {:induction false} GainFrame(c1: seq<seq<Cell>>, c2: seq<seq<Cell>>, ts: seq<Touch>)
    requires forall k :: 0 <= k < |ts| ==> TouchValue(c1, ts[k]) == TouchValue(c2, ts[k])
    ensures Gain(c1, ts) == Gain(c2, ts)
    decreases |ts|
  {
    if ts != [] {
      GainFrame(c1, c2, ts[..|ts| - 1]);
    }
  }

  lemma {:induction false} GainNonNegative(cells: seq<seq<Cell>>, ts: seq<Touch>)
    requires forall i, j :: 0 <= i < |cells| && 0 <= j < |cells[i]| ==> cells[i][j].score >= 0
    ensures Gain(cells, ts) >= 0
    decreases |ts|
  {
    if ts != [] {
      GainNonNegative(cells, ts[..|ts| - 1]);
    }
  }

  /** The last mark of MarkAll changes the closed-cell sum by the value of
      the last touched cell alone. */
  lemma MarkLastSum(s: BoardState, ts: seq<Touch>)
    requires Shaped(s) && TouchesInCells(s.size, ts) && ts != []
    requires Untouched(ts[..|ts| - 1], ts[|ts| - 1].i, ts[|ts| - 1].j)
    requires !Closed(s.cells[ts[|ts| - 1].i][ts[|ts| - 1].j])
    ensures var t := ts[|ts| - 1];
      ClosedSum(MarkAll(s, ts).cells) ==
      ClosedSum(MarkAll(s, ts[..|ts| - 1]).cells) + CellValue(MarkAll(s, ts).cells[t.i][t.j])
  {
    var t := ts[|ts| - 1];
    var m := MarkAll(s, ts[..|ts| - 1]);
    MarkAllCell(s, ts[..|ts| - 1], t.i, t.j);
    ClosedSumUpdate(m.cells, t.i, t.j, WithSide(m.cells[t.i][t.j], t.side));
  }

  /** Changing one cell leaves the gain of touches elsewhere alone. */
  lemma GainUpdate(cells: seq<seq<Cell>>, ts: seq<Touch>, i: int, j: int, c: Cell)
    requires 0 <= i < |cells| && 0 <= j < |cells[i]| && Untouched(ts, i, j)
    ensures Gain(cells[i := cells[i][j := c]], ts) == Gain(cells, ts)
  {
    var updated := cells[i := cells[i][j := c]];
    forall l | 0 <= l < |ts|
      ensures TouchValue(cells, ts[l]) == TouchValue(updated, ts[l])
    {
      assert ts[l].i != i || ts[l].j != j;
    }
    GainFrame(cells, updated, ts);
  }

  /** Marking sides of distinct cells that were all open raises the sum of
      the closed cells by exactly the value of the marked cells. */
  lemma {:induction false} MarkAllSum(s: BoardState, ts: seq<Touch>)
    requires Shaped(s) && TouchesInCells(s.size, ts)
    requires forall k, l :: 0 <= k < l < |ts| ==> ts[k].i != ts[l].i || ts[k].j != ts[l].j
    requires forall t :: t in ts ==> !Closed(s.cells[t.i][t.j])
    ensures ClosedSum(MarkAll(s, ts).cells) == ClosedSum(s.cells) + Gain(MarkAll(s, ts).cells, ts)
    decreases |ts|
  {
    if ts != [] {
      var pre := ts[..|ts| - 1];
      MarkAllSum(s, pre);
      MarkLastSum(s, ts);
      var t := ts[|ts| - 1];
      var m := MarkAll(s, pre);
      GainUpdate(m.cells, pre, t.i, t.j, WithSide(m.cells[t.i][t.j], t.side));
    }
  }

  /** A move links exactly a and b, in both directions, when they were not
      linked yet, and changes no link when they were. */
  lemma PlayEdgeConns(s: BoardState, a: Coord, b: Coord)
    requires Shaped(s) && Adjacent(s.size, a, b)
    ensures Shaped(PlayEdge(s, a, b))
    ensures forall p, q :: Connected(PlayEdge(s, a, b), p, q) <==>
      Connected(s, p, q) || (!Connected(s, a, b) && SameEdge(Move(p, q), a, b))
  {
    var c := Connect(s, a, b);
    var r := PlayEdge(s, a, b);
    assert r.size == c.size && r.conns == c.conns;
    forall p, q
      ensures Connected(r, p, q) == Connected(c, p, q)
    {
    }
  }

  /** The flags a move sets, and its points, on an edge not linked before:
      the touched cells were open and are marked, and the sum of the closed
      cells grows by what the mover is credited. */
  lemma PlayEdgeSum(s: BoardState, a: Coord, b: Coord)
    requires Sound(s) && Adjacent(s.size, a, b) && !Connected(s, a, b)
    ensures var r := PlayEdge(s, a, b);
      Shaped(r) && ClosedSum(r.cells) == ClosedSum(s.cells) + (r.humanScore - s.humanScore) + (r.computerScore - s.computerScore)
  {
    var s1 := Connect(s, a, b).(lastMove := Some(Move(a, b)));
    var ts := Touched(s.size, a, b);
    TouchedOpen(s, a, b);
    assert s1.cells == s.cells;
    MarkAllSum(s1, ts);
  }

  /** The cells an edge not yet linked touches are open. */
  lemma TouchedOpen(s: BoardState, a: Coord, b: Coord)
    requires Sound(s) && Adjacent(s.size, a, b) && !Connected(s, a, b)
    ensures forall t :: t in Touched(s.size, a, b) ==> !Closed(s.cells[t.i][t.j])
  {
    assert !Connected(s, b, a);
    TouchedSides(s.size, a, b);
    forall t | t in Touched(s.size, a, b)
      ensures !SideFlag(s.cells[t.i][t.j], t.side)
    {
    }
  }

  /** A move on an edge that was not yet linked keeps the board sound:
      the flags still agree with the links, and the newly closed cells are
      exactly those it credits. */
  lemma PlayEdgeSound(s: BoardState, a: Coord, b: Coord)
    requires Sound(s) && Adjacent(s.size, a, b) && !Connected(s, a, b)
    ensures Sound(PlayEdge(s, a, b))
  {
    var r := PlayEdge(s, a, b);
    var s1 := Connect(s, a, b).(lastMove := Some(Move(a, b)));
    PlayEdgeConns(s, a, b);
    PlayEdgeSum(s, a, b);
    CheckForSquaresCells(s1, a, b);
    assert ScoresPositive(r);
    forall i, j, side | InCells(s.size, i, j)
      ensures SideFlag(r.cells[i][j], side) == Connected(r, SideEdge(i, j, side).first, SideEdge(i, j, side).second)
    {
      var e := SideEdge(i, j, side);
      assert SameEdge(e, a, b) == SameEdge(Move(e.first, e.second), a, b);
    }
  }

  /** The three move operations keep the board sound when the edge is new,
      as the callers ensure (GameScene checks hasConnection before a human
      move; the search only plays pairs that are not connected). */
  lemma MovesKeepSound(s: BoardState, a: Coord, b: Coord)
    requires Sound(s) && Adjacent(s.size, a, b) && !Connected(s, a, b)
    ensures Sound(InitiateHumanMove(s, a, b))
    ensures Sound(SimulateHumanMove(s, a, b))
    ensures Sound(InitiateComputerMove(s, a, b))
  {
    var sh := s.(isComputerTurn := false);
    var sc := s.(isComputerTurn := true);
    SoundIgnoresTurn(s, false);
    SoundIgnoresTurn(s, true);
    assert !Connected(sh, a, b) && !Connected(sc, a, b);
    PlayEdgeSound(sh, a, b);
    PlayEdgeSound(sc, a, b);
    SoundIgnoresTurn(PlayEdge(sh, a, b), true);
    SoundIgnoresTurn(PlayEdge(sc, a, b), false);
  }

  /** Soundness does not depend on whose turn it is. */
  lemma SoundIgnoresTurn(s: BoardState, turn: bool)
    requires Sound(s)
    ensures Sound(s.(isComputerTurn := turn))
  {
    var t := s.(isComputerTurn := turn);
    forall p, q
      ensures Connected(t, p, q) == Connected(s, p, q)
    {
    }
  }

  /** Who is credited by each move, and what the turn and last move become:
      the mover's score never decreases and the other score is unchanged. */
  lemma MoveScores(s: BoardState, a: Coord, b: Coord)
    requires Shaped(s) && Adjacent(s.size, a, b) && ScoresPositive(s)
    ensures var r := InitiateComputerMove(s, a, b);
      r.humanScore == s.humanScore && r.computerScore >= s.computerScore &&
      !r.isComputerTurn && r.lastMove == Some(Move(a, b))
    ensures var r := SimulateHumanMove(s, a, b);
      r.computerScore == s.computerScore && r.humanScore >= s.humanScore &&
      r.isComputerTurn && r.lastMove == Some(Move(a, b))
    ensures var r := InitiateHumanMove(s, a, b);
      if s.isComputerTurn then r == s
      else r.computerScore == s.computerScore && r.humanScore >= s.humanScore &&
           r.isComputerTurn && r.lastMove == Some(Move(a, b))
  {
    PlayEdgeScores(s.(isComputerTurn := false), a, b);
    PlayEdgeScores(s.(isComputerTurn := true), a, b);
  }

  /** The player whose turn it is gains a non-negative amount; the other
      player's score, the turn flag and the depth stay; the move is recorded. */
  lemma PlayEdgeScores(s: BoardState, a: Coord, b: Coord)
    requires Shaped(s) && Adjacent(s.size, a, b) && ScoresPositive(s)
    ensures var r := PlayEdge(s, a, b);
      r.lastMove == Some(Move(a, b)) && r.isComputerTurn == s.isComputerTurn && r.ply == s.ply &&
      if s.isComputerTurn then r.humanScore == s.humanScore && r.computerScore >= s.computerScore
      else r.computerScore == s.computerScore && r.humanScore >= s.humanScore
  {
    var s1 := Connect(s, a, b).(lastMove := Some(Move(a, b)));
    var ts := Touched(s.size, a, b);
    var m := MarkAll(s1, ts);
    forall i, j | 0 <= i < |m.cells| && 0 <= j < |m.cells[i]|
      ensures m.cells[i][j].score >= 0
    {
      MarkAllCell(s1, ts, i, j);
    }
    GainNonNegative(m.cells, ts);
  }

  lemma {:induction false} NoClosedCells(cells: seq<seq<Cell>>)
    requires forall i, j :: 0 <= i < |cells| && 0 <= j < |cells[i]| ==> !Closed(cells[i][j])
    ensures ClosedSum(cells) == 0
  {
    if cells != [] {
      NoClosedRow(cells[0]);
      NoClosedCells(cells[1..]);
    }
  }

  lemma {:induction false} NoClosedRow(row: seq<Cell>)
    requires forall j :: 0 <= j < |row| ==> !Closed(row[j])
    ensures RowSum(row) == 0
  {
    if row != [] {
      NoClosedRow(row[1..]);
    }
  }

  /** A board as the game sets it up (no connections, no flags, zero
      scores, every cell worth at least one point) is sound. */
  lemma NewGameSound(s: BoardState)
    requires Shaped(s)
    requires forall p :: InRange(s.size, p) ==> s.conns[p.x][p.y] == []
    requires forall i, j :: InCells(s.size, i, j) ==>
      var c := s.cells[i][j]; !c.top && !c.right && !c.bottom && !c.left && c.score >= 1
    requires s.humanScore == 0 && s.computerScore == 0
    ensures Sound(s)
  {
    NoClosedCells(s.cells);
  }
}
