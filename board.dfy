/** Board.swift: the grid of dots and the grid of squares of one game, the
    two scores, whose turn it is, the last move and the search depth.

    The board keeps, as ghost state, the connection list of every dot and
    the state of every square as values; Valid() ties them to the Dot and
    BoardCell objects, and every operation is proved against the function
    of the same name in BoardModel. */
module Boards {
  import opened BoardModel
  import opened Dots
  import opened Cells

  /** The layout of a board of `n` dots per side: an n x n grid of dots,
      each at its own position, and an (n-1) x (n-1) grid of distinct
      squares. */
  ghost predicate Laid(n: int, dots: seq<seq<Dot>>, squares: seq<seq<BoardCell>>) {
    n >= 1 &&
    |dots| == n && (forall x :: 0 <= x < n ==> |dots[x]| == n) &&
    (forall x, y {:trigger dots[x][y]} :: 0 <= x < n && 0 <= y < n ==> dots[x][y].Pos() == Coord(x, y)) &&
    |squares| == n - 1 && (forall i :: 0 <= i < n - 1 ==> |squares[i]| == n - 1) &&
    (forall i, j, k, l :: InCells(n, i, j) && InCells(n, k, l) && squares[i][j] == squares[k][l] ==> i == k && j == l)
  }

  /** `ss` are the squares of the grid the touches `ts` name, in order. */
  ghost predicate SquaresAt(squares: seq<seq<BoardCell>>, ss: seq<BoardCell>, ts: seq<Touch>) {
    |ss| == |ts| &&
    forall l :: 0 <= l < |ts| ==>
      0 <= ts[l].i < |squares| && 0 <= ts[l].j < |squares[ts[l].i]| && ss[l] == squares[ts[l].i][ts[l].j]
  }

  /** `ds` are the dots of the grid at positions `ps`, in order. */
  ghost predicate DotsAt(dots: seq<seq<Dot>>, ds: seq<Dot>, ps: seq<Coord>) {
    |ds| == |ps| &&
    forall k {:trigger ds[k]} :: 0 <= k < |ds| ==>
      0 <= ps[k].x < |dots| && 0 <= ps[k].y < |dots[ps[k].x]| && ds[k] == dots[ps[k].x][ps[k].y]
  }

  lemma DotsAtConcat(dots: seq<seq<Dot>>, a: seq<Dot>, b: seq<Dot>, pa: seq<Coord>, pb: seq<Coord>)
    requires DotsAt(dots, a, pa) && DotsAt(dots, b, pb)
    ensures DotsAt(dots, a + b, pa + pb)
  {
    var ds, ps := a + b, pa + pb;
    assert forall k :: 0 <= k < |a| ==> ds[k] == a[k] && ps[k] == pa[k];
    assert forall k :: |a| <= k < |ds| ==> ds[k] == b[k - |a|] && ps[k] == pb[k - |a|];
  }

  /** The four pieces getAdjacents(of:) finds, put together, are the dots
      at the positions Adjacents lists. */
  lemma DotsAtAdjacents(dots: seq<seq<Dot>>, n: int, p: Coord,
                        up: seq<Dot>, right: seq<Dot>, down: seq<Dot>, left: seq<Dot>)
    requires DotsAt(dots, up, if p.x - 1 >= 0 then [Coord(p.x - 1, p.y)] else [])
    requires DotsAt(dots, right, if p.y + 1 < n then [Coord(p.x, p.y + 1)] else [])
    requires DotsAt(dots, down, if p.x + 1 < n then [Coord(p.x + 1, p.y)] else [])
    requires DotsAt(dots, left, if p.y - 1 >= 0 then [Coord(p.x, p.y - 1)] else [])
    ensures DotsAt(dots, up + right + down + left, Adjacents(n, p))
  {
    var pu := if p.x - 1 >= 0 then [Coord(p.x - 1, p.y)] else [];
    var pr := if p.y + 1 < n then [Coord(p.x, p.y + 1)] else [];
    var pd := if p.x + 1 < n then [Coord(p.x + 1, p.y)] else [];
    var pl := if p.y - 1 >= 0 then [Coord(p.x, p.y - 1)] else [];
    DotsAtConcat(dots, up, right, pu, pr);
    DotsAtConcat(dots, up + right, down, pu + pr, pd);
    DotsAtConcat(dots, up + right + down, left, pu + pr + pd, pl);
    assert pu + pr + pd + pl == Adjacents(n, p);
  }

  class Board {
    /** The number of dots per side. */
    const size: int
    const dots: seq<seq<Dot>>
    const numDots: int
    const numSquares: int
    const squares: seq<seq<BoardCell>>
    var computerScore: int
    var humanScore: int
    var isComputerTurn: bool
    /** The two dots connected by the last move, in the order given. */
    var lastMove: Option<(Dot, Dot)>
    var ply: int

    /** conns[x][y] is the connection list of dots[x][y]. */
    ghost var conns: seq<seq<seq<Coord>>>
    /** cells[i][j] is the state of squares[i][j]. */
    ghost var cells: seq<seq<Cell>>

    /** The dots of the grid, fixed when the board is made. */
    ghost const dotSet: set<Dot>
    /** The squares of the grid, fixed when the board is made. */
    ghost const cellSet: set<BoardCell>

    ghost function DotSet(): set<Dot> {
      dotSet
    }

    ghost function CellSet(): set<BoardCell> {
      cellSet
    }

    /** The objects that make up this board. */
    ghost function Repr(): set<object> {
      {this} + DotSet() + CellSet()
    }

    /** The board as a value. */
    ghost function Model(): BoardState
      reads this
    {
      BoardState(size, conns, cells, humanScore, computerScore, isComputerTurn,
                 match lastMove
                 case None => None
                 case Some(move) => Some(Move(move.0.Pos(), move.1.Pos())),
                 ply)
    }

    /** The dots and squares are laid out as the grid says, and the ghost
        record agrees with them. Only the dots, the squares and the record
        are read, so setting a score, the turn, the last move or the depth
        keeps the board valid. */
    ghost predicate Valid()
      reads this`conns, this`cells, DotSet(), CellSet()
      ensures Valid() ==> Shaped(Model())
    {
      Laid(size, dots, squares) &&
      (forall x, y {:trigger dots[x][y]} :: 0 <= x < size && 0 <= y < size ==> dots[x][y] in dotSet) &&
      (forall i, j {:trigger squares[i][j]} :: InCells(size, i, j) ==> squares[i][j] in cellSet) &&
      |conns| == size && (forall x :: 0 <= x < size ==> |conns[x]| == size) &&
      |cells| == size - 1 && (forall i :: 0 <= i < size - 1 ==> |cells[i]| == size - 1) &&
      (forall x, y :: 0 <= x < size && 0 <= y < size ==> dots[x][y].connections == conns[x][y]) &&
      (forall i, j :: InCells(size, i, j) ==> squares[i][j].Model() == cells[i][j])
    }

    /** `d` is the dot of this board at d's position. */
    ghost predicate IsDot(d: Dot) {
      0 <= d.x < |dots| && 0 <= d.y < |dots[d.x]| && dots[d.x][d.y] == d
    }

    /** init(size:with:with:): no scores, not the computer's turn, no last
        move, depth 0. `conns` and `cells` name the state the given dots and
        squares are in. */
    constructor (size: int, dots: seq<seq<Dot>>, squares: seq<seq<BoardCell>>,
                 ghost conns: seq<seq<seq<Coord>>>, ghost cells: seq<seq<Cell>>)
      requires Laid(size, dots, squares)
      requires Shaped(BoardState(size, conns, cells, 0, 0, false, None, 0))
      requires forall x, y :: 0 <= x < size && 0 <= y < size ==> dots[x][y].connections == conns[x][y]
      requires forall i, j :: InCells(size, i, j) ==> squares[i][j].Model() == cells[i][j]
      ensures Valid() && Model() == BoardState(size, conns, cells, 0, 0, false, None, 0)
      ensures this.dots == dots && this.squares == squares
      ensures numDots == size * size && numSquares == (size - 1) * (size - 1)
      ensures dotSet == set x, y | 0 <= x < |dots| && 0 <= y < |dots[x]| :: dots[x][y]
      ensures cellSet == set i, j | 0 <= i < |squares| && 0 <= j < |squares[i]| :: squares[i][j]
    {
      this.size := size;
      this.dotSet := set x, y | 0 <= x < |dots| && 0 <= y < |dots[x]| :: dots[x][y];
      this.cellSet := set i, j | 0 <= i < |squares| && 0 <= j < |squares[i]| :: squares[i][j];
      this.numDots := size * size;
      this.numSquares := (size - 1) * (size - 1);
      this.dots := dots;
      this.squares := squares;
      humanScore := 0;
      computerScore := 0;
      isComputerTurn := false;
      lastMove := None;
      ply := 0;
      this.conns := conns;
      this.cells := cells;
    }

    /** setPly(to:). */
    method SetPly(ply: int)
      requires Valid()
      modifies this`ply
      ensures Valid() && Model() == old(Model()).(ply := ply)
    {
      this.ply := ply;
    }

    /** updateLastMove(with:and:). */
    method UpdateLastMove(dot: Dot, other: Dot)
      requires Valid()
      modifies this`lastMove
      ensures Valid() && Model() == old(Model()).(lastMove := Some(Move(dot.Pos(), other.Pos())))
      ensures lastMove == Some((dot, other))
    {
      lastMove := Some((dot, other));
    }

    /** getLastMove(): the source force-unwraps, so there must be one. */
    method GetLastMove() returns (dot: Dot, other: Dot)
      requires lastMove.Some?
      ensures lastMove == Some((dot, other))
      ensures Model().lastMove == Some(Move(dot.Pos(), other.Pos()))
    {
      var (d, o) := lastMove.value;
      dot, other := d, o;
    }

    function GetHumanScore(): (r: int)
      reads this
      ensures r == Model().humanScore
    {
      humanScore
    }

    method SetHumanScore(score: int)
      requires Valid()
      modifies this`humanScore
      ensures Valid() && Model() == old(Model()).(humanScore := score)
    {
      humanScore := score;
    }

    function GetComputerScore(): (r: int)
      reads this
      ensures r == Model().computerScore
    {
      computerScore
    }

    method SetComputerScore(score: int)
      requires Valid()
      modifies this`computerScore
      ensures Valid() && Model() == old(Model()).(computerScore := score)
    {
      computerScore := score;
    }

    function GetDots(): (r: seq<seq<Dot>>)
      ensures r == dots
    {
      dots
    }

    function GetSquares(): (r: seq<seq<BoardCell>>)
      ensures r == squares
    {
      squares
    }

    /** One of the four tests of getAdjacents(of:): the dot at `q` when
        `onBoard` holds, nothing otherwise. */
    method DotIf(onBoard: bool, q: Coord) returns (r: seq<Dot>)
      requires onBoard ==> 0 <= q.x < |dots| && 0 <= q.y < |dots[q.x]|
      ensures DotsAt(dots, r, if onBoard then [q] else [])
    {
      if onBoard {
        r := [dots[q.x][q.y]];
      } else {
        r := [];
      }
    }

    /** getAdjacents(of:): the board's dots next to `dot`, up, right, down,
        left: the dots at the positions Adjacents lists. */
    method GetAdjacents(dot: Dot) returns (adjacents: seq<Dot>)
      requires Valid() && InRange(size, dot.Pos())
      ensures DotsAt(dots, adjacents, Adjacents(size, dot.Pos()))
    {
      var p := dot.Pos();
      var up := DotIf(p.x - 1 >= 0, Coord(p.x - 1, p.y));
      var right := DotIf(p.y + 1 < size, Coord(p.x, p.y + 1));
      var down := DotIf(p.x + 1 < size, Coord(p.x + 1, p.y));
      var left := DotIf(p.y - 1 >= 0, Coord(p.x, p.y - 1));
      DotsAtAdjacents(dots, size, p, up, right, down, left);
      adjacents := up + right + down + left;
    }

    /** areAdjacent(this:that:): `other` is one of the dots next to `dot`,
        that is, a dot of this board one step away. */
    method AreAdjacent(dot: Dot, other: Dot) returns (r: bool)
      requires Valid() && InRange(size, dot.Pos())
      ensures r <==> IsDot(other) && BoardModel.AreAdjacent(size, dot.Pos(), other.Pos())
    {
      var adjacents := GetAdjacents(dot);
      ghost var ps := Adjacents(size, dot.Pos());
      AdjacentsMembers(size, dot.Pos());
      if other in adjacents {
        var k :| 0 <= k < |adjacents| && adjacents[k] == other;
        assert other.Pos() == ps[k];
      }
      if IsDot(other) && other.Pos() in ps {
        var k :| 0 <= k < |ps| && ps[k] == other.Pos();
        assert adjacents[k] == other;
      }
      r := other in adjacents;
    }

    /** The k-th dot getAdjacents returns for `dot` is the dot of this board
        at the k-th position Adjacents lists, one step from `dot`, and
        `dot.hasConnection` to it reads the record of connections. */
    lemma AdjacentAt(dot: Dot, adjacents: seq<Dot>, k: int)
      requires Valid() && IsDot(dot) && DotsAt(dots, adjacents, Adjacents(size, dot.Pos()))
      requires 0 <= k < |adjacents|
      ensures adjacents[k].Pos() == Adjacents(size, dot.Pos())[k]
      ensures Adjacent(size, dot.Pos(), adjacents[k].Pos())
      ensures dot.HasConnection(adjacents[k]) <==> Connected(Model(), dot.Pos(), adjacents[k].Pos())
    {
      var q := Adjacents(size, dot.Pos())[k];
      AdjacentsMembers(size, dot.Pos());
      assert q in Adjacents(size, dot.Pos());
      assert adjacents[k] == dots[q.x][q.y];
      assert dot == dots[dot.x][dot.y];
    }

    /** The dot of a valid board at a position on it. */
    lemma DotAt(p: Coord)
      requires Valid() && InRange(size, p)
      ensures IsDot(dots[p.x][p.y]) && dots[p.x][p.y].Pos() == p
    {
    }

    /** The invariant holds on as long as the board's own objects are left
        alone. */
    twostate lemma ValidFrame()
      requires old(Valid()) && unchanged(this) && unchanged(dotSet) && unchanged(cellSet)
      ensures Valid()
    {
    }

    /** dot.connect(to:) on two dots of this board, keeping the record of
        the connection lists up to date. */
    method ConnectDots(dot: Dot, other: Dot)
      requires Valid() && IsDot(dot) && IsDot(other)
      modifies dot, other, this`conns
      ensures Valid() && Model() == Connect(old(Model()), dot.Pos(), other.Pos())
    {
      dot.Connect(other);
      conns := Connect(old(Model()), dot.Pos(), other.Pos()).conns;
    }

    /** `isComputerTurn = computer`, as the move methods write it. */
    method SetComputerTurn(computer: bool)
      requires Valid()
      modifies this`isComputerTurn
      ensures Valid() && Model() == old(Model()).(isComputerTurn := computer)
    {
      isComputerTurn := computer;
    }

    /** checkForSquares(from:and:): set the side flags of the squares next
        to the edge, then credit each of them that is now closed. */
    method CheckForSquares(dot: Dot, other: Dot)
      requires Valid() && Adjacent(size, dot.Pos(), other.Pos())
      modifies this`humanScore, this`computerScore, this`cells, CellSet()
      ensures Valid() && Model() == BoardModel.CheckForSquares(old(Model()), dot.Pos(), other.Pos())
    {
      ghost var ts;
      var startSquares;
      startSquares, ts := MarkSides(dot, other);
      FillSquares(startSquares, ts);
    }

    /** The second half of checkForSquares(from:and:): fillSquare(at:) on
        each of the marked squares, in order. */
    method FillSquares(startSquares: seq<BoardCell>, ghost ts: seq<Touch>)
      requires Valid() && SquaresAt(squares, startSquares, ts)
      requires TouchesInCells(size, ts)
      modifies this`humanScore, this`computerScore
      ensures Valid() && Model() == FillAll(old(Model()), ts)
    {
      for k := 0 to |startSquares|
        invariant Valid()
        invariant Model() == FillAll(old(Model()), ts[..k])
      {
        assert ts[..k + 1][..k] == ts[..k];
        FillSquare(startSquares[k], ts[k].i, ts[k].j);
      }
      assert ts[..|startSquares|] == ts;
    }

    /** The first half of checkForSquares(from:and:): the squares on either
        side of the edge get the flag of the side the edge forms, and are
        returned in the order Touched lists them. */
    method MarkSides(dot: Dot, other: Dot) returns (startSquares: seq<BoardCell>, ghost ts: seq<Touch>)
      requires Valid() && Adjacent(size, dot.Pos(), other.Pos())
      modifies this`cells, CellSet()
      ensures ts == Touched(size, dot.Pos(), other.Pos())
      ensures Valid() && Model() == MarkAll(old(Model()), ts)
      ensures SquaresAt(squares, startSquares, ts)
    {
      var a := dot.Pos();
      var b := other.Pos();
      ts := Touched(size, a, b);
      if a.x == b.x {
        startSquares := MarkRowEdge(a, b, ts);
      } else {
        startSquares := MarkColumnEdge(a, b, ts);
      }
    }

    /** The three branches of checkForSquares for an edge along a row: the
        squares above and below it get their bottom and top flag. */
    method MarkRowEdge(a: Coord, b: Coord, ghost ts: seq<Touch>) returns (startSquares: seq<BoardCell>)
      requires Valid() && Adjacent(size, a, b) && a.x == b.x && ts == Touched(size, a, b)
      modifies this`cells, CellSet()
      ensures Valid() && Model() == MarkAll(old(Model()), ts)
      ensures SquaresAt(squares, startSquares, ts)
    {
      var m := Min(a.y, b.y);
      if a.x == 0 {
        startSquares := MarkBorderEdge(a.x, m, Top, ts);
      } else if a.x == size - 1 {
        startSquares := MarkBorderEdge(a.x - 1, m, Bottom, ts);
      } else {
        startSquares := MarkInnerEdge(Touch(a.x, m, Top), Touch(a.x - 1, m, Bottom), ts);
      }
    }

    /** The three branches of checkForSquares for an edge along a column:
        the squares to its right and left get their left and right flag. */
    method MarkColumnEdge(a: Coord, b: Coord, ghost ts: seq<Touch>) returns (startSquares: seq<BoardCell>)
      requires Valid() && Adjacent(size, a, b) && a.x != b.x && ts == Touched(size, a, b)
      modifies this`cells, CellSet()
      ensures Valid() && Model() == MarkAll(old(Model()), ts)
      ensures SquaresAt(squares, startSquares, ts)
    {
      var m := Min(a.x, b.x);
      if a.y == 0 {
        startSquares := MarkBorderEdge(m, a.y, Left, ts);
      } else if a.y == size - 1 {
        startSquares := MarkBorderEdge(m, a.y - 1, Right, ts);
      } else {
        startSquares := MarkInnerEdge(Touch(m, a.y, Left), Touch(m, a.y - 1, Right), ts);
      }
    }

    /** A branch of checkForSquares for an edge on the boundary: the one
        square (i, j) next to it gets the flag of `side`. */
    method MarkBorderEdge(i: int, j: int, side: Side, ghost ts: seq<Touch>) returns (startSquares: seq<BoardCell>)
      requires Valid() && InCells(size, i, j) && ts == [Touch(i, j, side)]
      modifies this`cells, CellSet()
      ensures Valid() && Model() == MarkAll(old(Model()), ts)
      ensures SquaresAt(squares, startSquares, ts)
    {
      var square := squares[i][j];
      MarkSide(square, side, i, j);
      startSquares := [square];
      MarkAllOne(old(Model()), ts[0]);
    }

    /** A branch of checkForSquares for an inner edge: the squares on both
        sides of it get the flags `t.side` and `u.side`, in that order. */
    method MarkInnerEdge(t: Touch, u: Touch, ghost ts: seq<Touch>) returns (startSquares: seq<BoardCell>)
      requires Valid() && InCells(size, t.i, t.j) && InCells(size, u.i, u.j) && ts == [t, u]
      modifies this`cells, CellSet()
      ensures Valid() && Model() == MarkAll(old(Model()), ts)
      ensures SquaresAt(squares, startSquares, ts)
    {
      var squareOne := squares[t.i][t.j];
      MarkSide(squareOne, t.side, t.i, t.j);
      var squareTwo := squares[u.i][u.j];
      MarkSide(squareTwo, u.side, u.i, u.j);
      startSquares := [squareOne, squareTwo];
      MarkAllTwo(old(Model()), t, u);
    }

    /** Draws side `side` of square (i, j): `square.top = true` and its
        siblings in checkForSquares. */
    method MarkSide(square: BoardCell, side: Side, ghost i: int, ghost j: int)
      requires Valid() && InCells(size, i, j) && squares[i][j] == square
      modifies square, this`cells
      ensures Valid() && Model() == SetSide(old(Model()), Touch(i, j, side))
    {
      match side {
        case Top => square.top := true;
        case Right => square.right := true;
        case Bottom => square.bottom := true;
        case Left => square.left := true;
      }
      cells := SetSide(old(Model()), Touch(i, j, side)).cells;
      assert square.Model() == cells[i][j];
      forall k, l | InCells(size, k, l) && (k != i || l != j)
        ensures squares[k][l].Model() == cells[k][l]
      {
        assert squares[k][l] != square;
      }
    }

    /** fillSquare(at:): a closed square's points go to the player whose
        turn it is. (i, j) is the square's place on the grid. */
    method FillSquare(square: BoardCell, ghost i: int, ghost j: int)
      requires Valid() && InCells(size, i, j) && squares[i][j] == square
      modifies this`computerScore, this`humanScore
      ensures Valid() && Model() == BoardModel.FillSquare(old(Model()), i, j)
    {
      if square.top && square.right && square.bottom && square.left {
        if isComputerTurn {
          computerScore := computerScore + square.score;
        } else {
          humanScore := humanScore + square.score;
        }
      }
    }

    /** initiateHumanMove(with:and:), without the hand-over to the
        computer's thread: ignored on the computer's turn; otherwise the
        human plays the edge and the turn passes to the computer. */
    method InitiateHumanMove(dot: Dot, other: Dot)
      requires Valid() && IsDot(dot) && IsDot(other) && Adjacent(size, dot.Pos(), other.Pos())
      modifies Repr()
      ensures Valid() && Model() == BoardModel.InitiateHumanMove(old(Model()), dot.Pos(), other.Pos())
    {
      if isComputerTurn {
        return;
      }
      ConnectDots(dot, other);
      UpdateLastMove(dot, other);
      CheckForSquares(dot, other);
      SetComputerTurn(true);
    }

    /** simulateHumanMove(with:and:): the human plays the edge whatever the
        turn flag said, and the turn passes to the computer. */
    method SimulateHumanMove(dot: Dot, other: Dot)
      requires Valid() && IsDot(dot) && IsDot(other) && Adjacent(size, dot.Pos(), other.Pos())
      modifies Repr()
      ensures Valid() && Model() == BoardModel.SimulateHumanMove(old(Model()), dot.Pos(), other.Pos())
    {
      SetComputerTurn(false);
      ConnectDots(dot, other);
      UpdateLastMove(dot, other);
      CheckForSquares(dot, other);
      SetComputerTurn(true);
    }

    /** initiateComputerMove(with:and:): the computer plays the edge and the
        turn passes to the human. */
    method InitiateComputerMove(dot: Dot, other: Dot)
      requires Valid() && IsDot(dot) && IsDot(other) && Adjacent(size, dot.Pos(), other.Pos())
      modifies Repr()
      ensures Valid() && Model() == BoardModel.InitiateComputerMove(old(Model()), dot.Pos(), other.Pos())
    {
      SetComputerTurn(true);
      ConnectDots(dot, other);
      UpdateLastMove(dot, other);
      CheckForSquares(dot, other);
      SetComputerTurn(false);
    }

    /** The dot rows of copy(): a new dot at every position, with the
        connections of the dot there. */
    method CopyDots() returns (dotsCopy: seq<seq<Dot>>)
      requires Valid()
      ensures |dotsCopy| == size && forall x :: 0 <= x < size ==> |dotsCopy[x]| == size
      ensures forall x, y :: 0 <= x < size && 0 <= y < size ==>
        fresh(dotsCopy[x][y]) && dotsCopy[x][y].Pos() == Coord(x, y) && dotsCopy[x][y].connections == conns[x][y]
    {
      dotsCopy := [];
      for i := 0 to size
        invariant |dotsCopy| == i
        invariant forall x :: 0 <= x < i ==> |dotsCopy[x]| == size
        invariant forall x, y :: 0 <= x < i && 0 <= y < size ==>
          fresh(dotsCopy[x][y]) && dotsCopy[x][y].Pos() == Coord(x, y) && dotsCopy[x][y].connections == conns[x][y]
      {
        var dotRowCopy := CopyDotRow(i);
        dotsCopy := dotsCopy + [dotRowCopy];
      }
    }

    /** Row i of CopyDots. */
    method CopyDotRow(i: int) returns (dotRowCopy: seq<Dot>)
      requires Valid() && 0 <= i < size
      ensures |dotRowCopy| == size
      ensures forall y :: 0 <= y < size ==>
        fresh(dotRowCopy[y]) && dotRowCopy[y].Pos() == Coord(i, y) && dotRowCopy[y].connections == conns[i][y]
    {
      dotRowCopy := [];
      for j := 0 to size
        invariant |dotRowCopy| == j
        invariant forall y :: 0 <= y < j ==>
          fresh(dotRowCopy[y]) && dotRowCopy[y].Pos() == Coord(i, y) && dotRowCopy[y].connections == conns[i][y]
      {
        var d := dots[i][j].Copy();
        dotRowCopy := dotRowCopy + [d];
      }
    }

    /** The square rows of copy(): a new square for every square, in the
        same state, no two the same object. */
    method CopySquares() returns (squaresCopy: seq<seq<BoardCell>>)
      requires Valid()
      ensures |squaresCopy| == size - 1 && forall x :: 0 <= x < size - 1 ==> |squaresCopy[x]| == size - 1
      ensures forall x, y :: InCells(size, x, y) ==> fresh(squaresCopy[x][y]) && squaresCopy[x][y].Model() == cells[x][y]
      ensures forall x, y, x', y' ::
        (InCells(size, x, y) && InCells(size, x', y') && squaresCopy[x][y] == squaresCopy[x'][y']) ==> x == x' && y == y'
    {
      squaresCopy := [];
      for i := 0 to size - 1
        invariant |squaresCopy| == i
        invariant forall x :: 0 <= x < i ==> |squaresCopy[x]| == size - 1
        invariant forall x, y :: 0 <= x < i && 0 <= y < size - 1 ==>
          fresh(squaresCopy[x][y]) && squaresCopy[x][y].Model() == cells[x][y]
        invariant forall x, y, x', y' ::
          (0 <= x < i && 0 <= y < size - 1 && 0 <= x' < i && 0 <= y' < size - 1 &&
           squaresCopy[x][y] == squaresCopy[x'][y']) ==> x == x' && y == y'
      {
        var squareRowCopy := CopySquareRow(i);
        squaresCopy := squaresCopy + [squareRowCopy];
      }
    }

    /** Row i of CopySquares. */
    method CopySquareRow(i: int) returns (squareRowCopy: seq<BoardCell>)
      requires Valid() && 0 <= i < size - 1
      ensures |squareRowCopy| == size - 1
      ensures forall y :: 0 <= y < size - 1 ==> fresh(squareRowCopy[y]) && squareRowCopy[y].Model() == cells[i][y]
      ensures forall y, y' :: 0 <= y < y' < size - 1 ==> squareRowCopy[y] != squareRowCopy[y']
    {
      squareRowCopy := [];
      for j := 0 to size - 1
        invariant |squareRowCopy| == j
        invariant forall y :: 0 <= y < j ==> fresh(squareRowCopy[y]) && squareRowCopy[y].Model() == cells[i][y]
        invariant forall y, y' :: 0 <= y < y' < j ==> squareRowCopy[y] != squareRowCopy[y']
      {
        var square := squares[i][j].Copy();
        squareRowCopy := squareRowCopy + [square];
      }
    }

    /** copy(): a board made of new dots and new squares in the same state,
        with the same scores, last move and depth; the new board starts on
        the human's turn, and its last move names this board's dots.
        Nothing of this board changes. */
    method Copy() returns (newBoard: Board)
      requires Valid() && lastMove.Some?
      ensures fresh(newBoard) && fresh(newBoard.Repr())
      ensures newBoard.Valid() && newBoard.Model() == BoardModel.Copy(Model())
      ensures newBoard.lastMove == lastMove
    {
      var dotsCopy := CopyDots();
      var squaresCopy := CopySquares();
      newBoard := new Board(size, dotsCopy, squaresCopy, conns, cells);
      assert fresh(newBoard.Repr());
      var (dotOne, dotTwo) := lastMove.value;
      newBoard.UpdateLastMove(dotOne, dotTwo);
      newBoard.SetHumanScore(humanScore);
      newBoard.SetComputerScore(computerScore);
      newBoard.SetPly(ply);
    }
  }

  /** Marking one touched side is one SetSide. */
  lemma MarkAllOne(s: BoardState, t: Touch)
    requires Shaped(s) && InCells(s.size, t.i, t.j)
    ensures MarkAll(s, [t]) == SetSide(s, t)
  {
    assert [t][..0] == [];
  }

  /** Marking two touched sides is two SetSides, in order. */
  lemma MarkAllTwo(s: BoardState, t: Touch, u: Touch)
    requires Shaped(s) && InCells(s.size, t.i, t.j) && InCells(s.size, u.i, u.j)
    ensures MarkAll(s, [t, u]) == SetSide(SetSide(s, t), u)
  {
    var ts := [t, u];
    assert ts[..1] == [t];
    assert ts[1] == u;
    MarkAllOne(s, t);
    assert MarkAll(s, ts) == SetSide(MarkAll(s, [t]), u);
  }
}
