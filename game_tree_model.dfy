/** Value-level model of the search in Minimax.swift over the tree of
    Node.swift.

    The search expands the tree below a start node down to a given depth.
    The children of a node are the boards reached by one free edge each,
    taken in a fixed order: dots in row-major order, then each dot's
    neighbours up, right, down, left. Leaves are worth the computer's lead;
    MAX nodes take the largest value of their children, MIN nodes the
    smallest. The computer plays the move of the first child of the root
    whose value is the root's value.

    `Expand` is the tree generateNodes builds, `Value` the value
    backUpValues computes, and `Decide` what minimax does to the live
    board. The lemmas state the shape of the tree, the order of the moves
    and what the chosen move is. */
module GameTreeModel {
  import opened BoardModel

  /** Minimax.swift nodeType. */
  datatype NodeType = MIN | MAX

  /** The level of a node's children: the opposite of the node's own. */
  function ChildLevel(kind: NodeType): (r: NodeType)
    ensures r != kind
  {
    if kind == MAX then MIN else MAX
  }

  /** A node of the search tree: its level, its board and its children. */
  datatype GameTree = GameTree(kind: NodeType, board: BoardState, children: seq<GameTree>)

  /** Minimax.swift eval: the computer's lead on a board. */
  function Eval(s: BoardState): int {
    s.computerScore - s.humanScore
  }

  /** A computer move never lowers the computer's lead and a human move never
      raises it. */
  lemma EvalMoves(s: BoardState, a: Coord, b: Coord)
    requires Shaped(s) && Adjacent(s.size, a, b) && ScoresPositive(s)
    ensures Eval(InitiateComputerMove(s, a, b)) >= Eval(s)
    ensures Eval(SimulateHumanMove(s, a, b)) <= Eval(s)
  {
    MoveScores(s, a, b);
  }

  // ---------------------------------------------------------------------
  // The order in which generateNodes tries moves
  // ---------------------------------------------------------------------

  /** The dot one step from p in direction d: 0 up, 1 right, 2 down,
      3 left (the order of Board.getAdjacents). */
  function Step(p: Coord, d: int): (q: Coord)
    ensures 0 <= d < 4 ==> Neighbours(p, q) && Direction(p, q) == d
  {
    if d == 0 then Coord(p.x - 1, p.y)
    else if d == 1 then Coord(p.x, p.y + 1)
    else if d == 2 then Coord(p.x + 1, p.y)
    else Coord(p.x, p.y - 1)
  }

  /** Each neighbour of p is the step from p in its own direction. */
  lemma StepToNeighbour(p: Coord, q: Coord)
    requires Neighbours(p, q)
    ensures 0 <= Direction(p, q) < 4 && Step(p, Direction(p, q)) == q
  {
  }

  /** The four moves generateNodes considers from dot p, up, right, down,
      left, before it drops those leaving the board or already made. */
  function DotCandidates(p: Coord): (r: seq<Move>)
    ensures |r| == 4 && forall k :: 0 <= k < 4 ==> r[k] == Move(p, Step(p, k))
  {
    [Move(p, Step(p, 0)), Move(p, Step(p, 1)), Move(p, Step(p, 2)), Move(p, Step(p, 3))]
  }

  /** The candidates from the dots (x, 0) .. (x, y-1) of row x. */
  function RowCandidates(x: int, y: int): (r: seq<Move>)
    requires y >= 0
    ensures forall k :: 0 <= k < |r| ==>
      r[k].first.x == x && 0 <= r[k].first.y < y && Neighbours(r[k].first, r[k].second)
    decreases y
  {
    if y == 0 then [] else RowCandidates(x, y - 1) + DotCandidates(Coord(x, y - 1))
  }

  /** The candidates from the dots of rows 0 .. x-1 of a board with n dots
      per side, row by row (generateNodes counts the dots 0 .. n*n-1 and
      visits dot d at row d / n, column d % n). */
  function Candidates(n: int, x: int): (r: seq<Move>)
    requires n >= 0 && x >= 0
    ensures forall k :: 0 <= k < |r| ==>
      0 <= r[k].first.x < x && 0 <= r[k].first.y < n && Neighbours(r[k].first, r[k].second)
    decreases x
  {
    if x == 0 then [] else Candidates(n, x - 1) + RowCandidates(x - 1, n)
  }

  /** A candidate that becomes a child: its second dot is on the board
      and the two dots are not yet connected (the hasConnection test). */
  ghost predicate Free(s: BoardState, m: Move)
    requires Shaped(s)
  {
    InRange(s.size, m.second) && !Connected(s, m.first, m.second)
  }

  /** The free candidates among `c`, in the order of `c`. */
  ghost function FreeOf(s: BoardState, c: seq<Move>): seq<Move>
    requires Shaped(s)
    decreases |c|
  {
    if c == [] then []
    else FreeOf(s, c[..|c| - 1]) + (if Free(s, c[|c| - 1]) then [c[|c| - 1]] else [])
  }

  /** FreeOf keeps only free candidates. */
  lemma {:induction false} FreeOfSound(s: BoardState, c: seq<Move>)
    requires Shaped(s)
    ensures forall k :: 0 <= k < |FreeOf(s, c)| ==> FreeOf(s, c)[k] in c && Free(s, FreeOf(s, c)[k])
    decreases |c|
  {
    if c != [] {
      FreeOfSound(s, c[..|c| - 1]);
    }
  }

  /** Every move generateNodes makes from a board, in the order it makes
      them. */
  ghost function Moves(s: BoardState): (r: seq<Move>)
    requires Shaped(s)
    ensures forall k :: 0 <= k < |r| ==> Adjacent(s.size, r[k].first, r[k].second)
  {
    var c := Candidates(s.size, s.size);
    assert forall m :: m in c ==> InRange(s.size, m.first) && Neighbours(m.first, m.second);
    FreeOfSound(s, c);
    FreeOf(s, c)
  }

  /** `m1` comes before `m2` in the order generateNodes tries moves: by
      the row of the first dot, then its column, then the direction of the
      second dot from the first. */
  predicate Precedes(m1: Move, m2: Move) {
    m1.first.x < m2.first.x ||
    (m1.first.x == m2.first.x && m1.first.y < m2.first.y) ||
    (m1.first == m2.first && Direction(m1.first, m1.second) < Direction(m1.first, m2.second))
  }

  lemma {:induction false} FreeOfComplete(s: BoardState, c: seq<Move>)
    requires Shaped(s)
    ensures forall m :: m in c && Free(s, m) ==> m in FreeOf(s, c)
    decreases |c|
  {
    if c != [] {
      FreeOfComplete(s, c[..|c| - 1]);
      assert c == c[..|c| - 1] + [c[|c| - 1]];
    }
  }

  lemma {:induction false} RowCandidatesHas(x: int, y: int, z: int, d: int)
    requires 0 <= y < z && 0 <= d < 4
    ensures Move(Coord(x, y), Step(Coord(x, y), d)) in RowCandidates(x, z)
    decreases z
  {
    if y < z - 1 {
      RowCandidatesHas(x, y, z - 1, d);
    } else {
      assert DotCandidates(Coord(x, y))[d] == Move(Coord(x, y), Step(Coord(x, y), d));
    }
  }

  lemma {:induction false} CandidatesHas(n: int, p: Coord, x: int, d: int)
    requires InRange(n, p) && p.x < x && 0 <= d < 4
    ensures Move(p, Step(p, d)) in Candidates(n, x)
    decreases x
  {
    if p.x < x - 1 {
      CandidatesHas(n, p, x - 1, d);
    } else {
      RowCandidatesHas(p.x, p.y, n, d);
    }
  }

  /** The moves are exactly the pairs of adjacent dots not yet connected. */
  lemma MovesExactly(s: BoardState)
    requires Shaped(s)
    ensures forall m :: m in Moves(s) <==>
      Adjacent(s.size, m.first, m.second) && !Connected(s, m.first, m.second)
  {
    var c := Candidates(s.size, s.size);
    FreeOfSound(s, c);
    FreeOfComplete(s, c);
    forall m: Move | Adjacent(s.size, m.first, m.second) && !Connected(s, m.first, m.second)
      ensures m in c
    {
      StepToNeighbour(m.first, m.second);
      CandidatesHas(s.size, m.first, s.size, Direction(m.first, m.second));
    }
  }

  /** Every move joins adjacent dots not yet connected. */
  lemma MovesFree(s: BoardState)
    requires Shaped(s)
    ensures forall k :: 0 <= k < |Moves(s)| ==>
      Adjacent(s.size, Moves(s)[k].first, Moves(s)[k].second) &&
      !Connected(s, Moves(s)[k].first, Moves(s)[k].second)
  {
    FreeOfSound(s, Candidates(s.size, s.size));
  }

  /** A sequence of moves in strictly increasing Precedes order. */
  predicate Increasing(c: seq<Move>) {
    forall k, l :: 0 <= k < l < |c| ==> Precedes(c[k], c[l])
  }

  /** Two increasing runs, every move of the first preceding every move of
      the second, make an increasing run. */
  lemma IncreasingAppend(a: seq<Move>, b: seq<Move>)
    requires Increasing(a) && Increasing(b)
    requires forall k, l :: 0 <= k < |a| && 0 <= l < |b| ==> Precedes(a[k], b[l])
    ensures Increasing(a + b)
  {
    var c := a + b;
    forall k, l | 0 <= k < l < |c|
      ensures Precedes(c[k], c[l])
    {
      if l < |a| {
        assert c[k] == a[k] && c[l] == a[l];
      } else if k < |a| {
        assert c[k] == a[k] && c[l] == b[l - |a|];
      } else {
        assert c[k] == b[k - |a|] && c[l] == b[l - |a|];
      }
    }
  }

  lemma {:induction false} RowCandidatesIncreasing(x: int, y: int)
    requires y >= 0
    ensures Increasing(RowCandidates(x, y))
    decreases y
  {
    if y > 0 {
      RowCandidatesIncreasing(x, y - 1);
      var p := Coord(x, y - 1);
      assert Increasing(DotCandidates(p));
      IncreasingAppend(RowCandidates(x, y - 1), DotCandidates(p));
    }
  }

  lemma {:induction false} CandidatesIncreasing(n: int, x: int)
    requires n >= 0 && x >= 0
    ensures Increasing(Candidates(n, x))
    decreases x
  {
    if x > 0 {
      CandidatesIncreasing(n, x - 1);
      RowCandidatesIncreasing(x - 1, n);
      IncreasingAppend(Candidates(n, x - 1), RowCandidates(x - 1, n));
    }
  }

  lemma {:induction false} FreeOfIncreasing(s: BoardState, c: seq<Move>)
    requires Shaped(s) && Increasing(c)
    ensures Increasing(FreeOf(s, c))
    decreases |c|
  {
    if c != [] {
      var pre := c[..|c| - 1];
      assert Increasing(pre);
      FreeOfIncreasing(s, pre);
      FreeOfSound(s, pre);
      var rp := FreeOf(s, pre);
      forall k | 0 <= k < |rp|
        ensures Precedes(rp[k], c[|c| - 1])
      {
        var i :| 0 <= i < |pre| && pre[i] == rp[k];
      }
    }
  }

  /** generateNodes tries the moves in a strict order, so no move twice. */
  lemma MovesOrdered(s: BoardState)
    requires Shaped(s)
    ensures forall k, l :: 0 <= k < l < |Moves(s)| ==> Precedes(Moves(s)[k], Moves(s)[l])
    ensures forall k, l :: 0 <= k < l < |Moves(s)| ==> Moves(s)[k] != Moves(s)[l]
  {
    CandidatesIncreasing(s.size, s.size);
    FreeOfIncreasing(s, Candidates(s.size, s.size));
  }

  /** On a sound board every free edge is tried from both of its ends, so it
      yields two children. */
  lemma MovesBothWays(s: BoardState, a: Coord, b: Coord)
    requires Sound(s)
    ensures Move(a, b) in Moves(s) <==> Move(b, a) in Moves(s)
  {
    MovesExactly(s);
    assert Neighbours(a, b) <==> Neighbours(b, a);
  }

  lemma {:induction false} FreeOfSameConns(s: BoardState, t: BoardState, c: seq<Move>)
    requires Shaped(s) && Shaped(t) && s.size == t.size && s.conns == t.conns
    ensures FreeOf(s, c) == FreeOf(t, c)
    decreases |c|
  {
    if c != [] {
      FreeOfSameConns(s, t, c[..|c| - 1]);
      var m := c[|c| - 1];
      assert Connected(s, m.first, m.second) == Connected(t, m.first, m.second);
    }
  }

  /** The moves depend on the connections alone: a copy offers the same. */
  lemma MovesOfCopy(s: BoardState)
    requires Shaped(s) && s.lastMove.Some?
    ensures Moves(Copy(s)) == Moves(s)
  {
    FreeOfSameConns(s, Copy(s), Candidates(s.size, s.size));
  }

  // ---------------------------------------------------------------------
  // How generateNodes walks the candidates
  // ---------------------------------------------------------------------

  /** The candidates from the dots 0 .. d-1, numbered row by row as
      generateNodes numbers them (dot d is at row d / n, column d % n). */
  function CandidatesUpTo(n: int, d: int): seq<Move>
    requires n >= 1 && d >= 0
  {
    Candidates(n, d / n) + RowCandidates(d / n, d % n)
  }

  /** Multiplying by a non-negative factor keeps the order. */
  lemma MulMono(a: int, b: int, n: int)
    ensures 0 <= n && a <= b ==> a * n <= b * n
  {
    if 0 <= n && a <= b {
      assert b * n - a * n == (b - a) * n;
    }
  }

  /** The quotient and remainder of a = q * n + r with 0 <= r < n. */
  lemma DivModOf(a: int, n: int, q: int, r: int)
    requires n >= 1 && 0 <= r < n && a == q * n + r
    ensures a / n == q && a % n == r
  {
    var q', r' := a / n, a % n;
    MulMono(q' + 1, q, n);
    MulMono(q + 1, q', n);
    assert (q' + 1) * n == q' * n + n;
    assert (q + 1) * n == q * n + n;
  }

  /** Dot d of a board with n dots per side is on the board. */
  lemma DotNumberInRange(n: int, d: int)
    requires n >= 1 && 0 <= d < n * n
    ensures InRange(n, Coord(d / n, d % n))
  {
    MulMono(n, d / n, n);
  }

  /** Going from dot d to dot d + 1 adds the candidates of dot d. */
  lemma CandidatesUpToStep(n: int, d: int)
    requires n >= 1 && d >= 0
    ensures CandidatesUpTo(n, d + 1) == CandidatesUpTo(n, d) + DotCandidates(Coord(d / n, d % n))
  {
    var q, r := d / n, d % n;
    if r < n - 1 {
      DivModOf(d + 1, n, q, r + 1);
    } else {
      DivModOf(d + 1, n, q + 1, 0);
    }
  }

  /** No dot visited: no candidate; every dot visited: all of them. */
  lemma CandidatesUpToEnds(n: int)
    requires n >= 1
    ensures CandidatesUpTo(n, 0) == []
    ensures CandidatesUpTo(n, n * n) == Candidates(n, n)
  {
    DivModOf(0, n, 0, 0);
    DivModOf(n * n, n, n, 0);
  }

  /** The candidates from p that Board.getAdjacents returns: those whose
      second dot is on the board, in the same order. */
  function AdjacentMoves(n: int, p: Coord): (r: seq<Move>)
    ensures |r| == |Adjacents(n, p)| && forall k :: 0 <= k < |r| ==> r[k] == Move(p, Adjacents(n, p)[k])
  {
    MovesFrom(p, Adjacents(n, p))
  }

  /** Filtering distributes over concatenation. */
  lemma {:induction false} FreeOfAppend(s: BoardState, a: seq<Move>, b: seq<Move>)
    requires Shaped(s)
    ensures FreeOf(s, a + b) == FreeOf(s, a) + FreeOf(s, b)
    decreases |b|
  {
    if b == [] {
      assert a + b == a;
    } else {
      var b' := b[..|b| - 1];
      assert (a + b)[..|a + b| - 1] == a + b';
      assert (a + b)[|a + b| - 1] == b[|b| - 1];
      FreeOfAppend(s, a, b');
    }
  }

  /** The moves from p to each of `qs`, in order. */
  function MovesFrom(p: Coord, qs: seq<Coord>): (r: seq<Move>)
    ensures |r| == |qs| && forall k :: 0 <= k < |r| ==> r[k] == Move(p, qs[k])
  {
    seq(|qs|, k requires 0 <= k < |qs| => Move(p, qs[k]))
  }

  lemma MovesFromAppend(p: Coord, a: seq<Coord>, b: seq<Coord>)
    ensures MovesFrom(p, a + b) == MovesFrom(p, a) + MovesFrom(p, b)
  {
  }

  /** One piece of getAdjacents: the dot q when the test that it is on the
      board passes, and nothing otherwise. */
  function Guarded(onBoard: bool, q: Coord): seq<Coord> {
    if onBoard then [q] else []
  }

  /** A piece of getAdjacents, guarded by the test that q is on the board,
      keeps the same free moves as the unguarded candidate: a candidate
      leaving the board is never free. */
  lemma FreeGuarded(s: BoardState, p: Coord, q: Coord, onBoard: bool)
    requires Shaped(s) && (onBoard <==> InRange(s.size, q))
    ensures FreeOf(s, [Move(p, q)]) == FreeOf(s, MovesFrom(p, Guarded(onBoard, q)))
  {
    assert [Move(p, q)][..0] == [];
    if onBoard {
      assert MovesFrom(p, [q]) == [Move(p, q)];
    }
  }

  /** Filtering a sequence in four pieces filters each piece. */
  lemma FreeOfFour(s: BoardState, a: seq<Move>, b: seq<Move>, c: seq<Move>, d: seq<Move>)
    requires Shaped(s)
    ensures FreeOf(s, a + b + c + d) == FreeOf(s, a) + FreeOf(s, b) + FreeOf(s, c) + FreeOf(s, d)
  {
    FreeOfAppend(s, a, b);
    FreeOfAppend(s, a + b, c);
    FreeOfAppend(s, a + b + c, d);
  }

  /** The moves getAdjacents offers from p, in its four guarded pieces. */
  lemma AdjacentMovesPieces(n: int, p: Coord)
    ensures AdjacentMoves(n, p) ==
      MovesFrom(p, Guarded(p.x - 1 >= 0, Coord(p.x - 1, p.y))) +
      MovesFrom(p, Guarded(p.y + 1 < n, Coord(p.x, p.y + 1))) +
      MovesFrom(p, Guarded(p.x + 1 < n, Coord(p.x + 1, p.y))) +
      MovesFrom(p, Guarded(p.y - 1 >= 0, Coord(p.x, p.y - 1)))
  {
    var u, r := Guarded(p.x - 1 >= 0, Coord(p.x - 1, p.y)), Guarded(p.y + 1 < n, Coord(p.x, p.y + 1));
    var d, l := Guarded(p.x + 1 < n, Coord(p.x + 1, p.y)), Guarded(p.y - 1 >= 0, Coord(p.x, p.y - 1));
    assert Adjacents(n, p) == u + r + d + l;
    MovesFromAppend(p, u, r);
    MovesFromAppend(p, u + r, d);
    MovesFromAppend(p, u + r + d, l);
  }

  /** The free candidates of p, piece by piece as getAdjacents guards
      them. */
  lemma FreeDotPieces(s: BoardState, p: Coord)
    requires Shaped(s) && InRange(s.size, p)
    ensures FreeOf(s, DotCandidates(p)) ==
      FreeOf(s, MovesFrom(p, Guarded(p.x - 1 >= 0, Coord(p.x - 1, p.y)))) +
      FreeOf(s, MovesFrom(p, Guarded(p.y + 1 < s.size, Coord(p.x, p.y + 1)))) +
      FreeOf(s, MovesFrom(p, Guarded(p.x + 1 < s.size, Coord(p.x + 1, p.y)))) +
      FreeOf(s, MovesFrom(p, Guarded(p.y - 1 >= 0, Coord(p.x, p.y - 1))))
  {
    var qu, qr, qd, ql := Step(p, 0), Step(p, 1), Step(p, 2), Step(p, 3);
    assert qu == Coord(p.x - 1, p.y) && qr == Coord(p.x, p.y + 1) && qd == Coord(p.x + 1, p.y) && ql == Coord(p.x, p.y - 1);
    assert DotCandidates(p) == [Move(p, qu)] + [Move(p, qr)] + [Move(p, qd)] + [Move(p, ql)];
    FreeOfFour(s, [Move(p, qu)], [Move(p, qr)], [Move(p, qd)], [Move(p, ql)]);
    FreeGuarded(s, p, qu, p.x - 1 >= 0);
    FreeGuarded(s, p, qr, p.y + 1 < s.size);
    FreeGuarded(s, p, qd, p.x + 1 < s.size);
    FreeGuarded(s, p, ql, p.y - 1 >= 0);
  }

  /** The free candidates of a dot are the free moves among the ones
      getAdjacents offers. */
  lemma FreeDotCandidates(s: BoardState, p: Coord)
    requires Shaped(s) && InRange(s.size, p)
    ensures FreeOf(s, DotCandidates(p)) == FreeOf(s, AdjacentMoves(s.size, p))
  {
    var n := s.size;
    AdjacentMovesPieces(n, p);
    FreeDotPieces(s, p);
    FreeOfFour(s, MovesFrom(p, Guarded(p.x - 1 >= 0, Coord(p.x - 1, p.y))),
               MovesFrom(p, Guarded(p.y + 1 < n, Coord(p.x, p.y + 1))),
               MovesFrom(p, Guarded(p.x + 1 < n, Coord(p.x + 1, p.y))),
               MovesFrom(p, Guarded(p.y - 1 >= 0, Coord(p.x, p.y - 1))));
  }

  /** The free moves found from dots 0 .. d are those found from dots
      0 .. d-1 followed by the free moves among dot d's adjacents. */
  lemma FreeUpToStep(s: BoardState, d: int)
    requires Shaped(s) && 0 <= d < s.size * s.size
    ensures InRange(s.size, Coord(d / s.size, d % s.size))
    ensures FreeOf(s, CandidatesUpTo(s.size, d + 1)) ==
      FreeOf(s, CandidatesUpTo(s.size, d)) + FreeOf(s, AdjacentMoves(s.size, Coord(d / s.size, d % s.size)))
  {
    var n := s.size;
    var p := Coord(d / n, d % n);
    DotNumberInRange(n, d);
    CandidatesUpToStep(n, d);
    FreeOfAppend(s, CandidatesUpTo(n, d), DotCandidates(p));
    FreeDotCandidates(s, p);
  }

  /** One more candidate: kept exactly when it is free. */
  lemma FreeOfSnoc(s: BoardState, c: seq<Move>, m: Move)
    requires Shaped(s)
    ensures FreeOf(s, c + [m]) == FreeOf(s, c) + (if Free(s, m) then [m] else [])
  {
    assert (c + [m])[..|c|] == c;
  }

  // ---------------------------------------------------------------------
  // The tree generateNodes builds
  // ---------------------------------------------------------------------

  /** No node lies more than `d` levels below `t`. */
  ghost predicate Within(t: GameTree, d: int)
    decreases t
  {
    t.children == [] || (d >= 1 && forall k :: 0 <= k < |t.children| ==> Within(t.children[k], d - 1))
  }

  /** Every child has the level opposite to its parent's, all the way down. */
  ghost predicate Alternates(t: GameTree)
    decreases t
  {
    forall k :: 0 <= k < |t.children| ==>
      t.children[k].kind == ChildLevel(t.kind) && Alternates(t.children[k])
  }

  /** A node less than `d` levels deep is a leaf only when its board has no
      free move left. */
  ghost predicate LeavesJustified(t: GameTree, d: int)
    decreases t
  {
    Shaped(t.board) &&
    (t.children == [] ==> d <= 0 || Moves(t.board) == []) &&
    forall k :: 0 <= k < |t.children| ==> LeavesJustified(t.children[k], d - 1)
  }

  /** Board `c` is board `s` with the one edge `m` added, an edge between
      adjacent dots that was free on `s`; `m` is the last move of `c`. */
  ghost predicate OneMoreEdge(s: BoardState, c: BoardState, m: Move) {
    Shaped(s) && Shaped(c) && c.size == s.size && c.lastMove == Some(m) &&
    Adjacent(s.size, m.first, m.second) && !Connected(s, m.first, m.second) &&
    forall p, q :: Connected(c, p, q) <==> Connected(s, p, q) || SameEdge(Move(p, q), m.first, m.second)
  }

  /** Every child's board is its parent's with one more edge, all the way
      down. */
  ghost predicate OneEdgeApart(t: GameTree)
    decreases t
  {
    forall k :: 0 <= k < |t.children| ==>
      t.children[k].board.lastMove.Some? &&
      OneMoreEdge(t.board, t.children[k].board, t.children[k].board.lastMove.value) &&
      OneEdgeApart(t.children[k])
  }

  /** A move as generateNodes applies it: MIN-level children simulate a
      computer move, MAX-level children a human move. */
  ghost function Play(level: NodeType, s: BoardState, m: Move): (r: BoardState)
    requires Shaped(s) && Adjacent(s.size, m.first, m.second)
    ensures Shaped(r) && r.size == s.size && r.lastMove == Some(m)
  {
    if level == MIN then InitiateComputerMove(s, m.first, m.second)
    else SimulateHumanMove(s, m.first, m.second)
  }

  /** The board of the child generated for move m: the move played on a
      copy of the parent's board. */
  ghost function ChildBoard(level: NodeType, s: BoardState, m: Move): (r: BoardState)
    requires Shaped(s) && s.lastMove.Some? && Adjacent(s.size, m.first, m.second)
    ensures Shaped(r) && r.size == s.size && r.lastMove == Some(m)
  {
    Play(level, Copy(s), m)
  }

  /** The connections of a child's board: the parent's plus the one move. */
  lemma ChildBoardConns(level: NodeType, s: BoardState, m: Move)
    requires Shaped(s) && s.lastMove.Some? && Adjacent(s.size, m.first, m.second)
    ensures forall p, q :: Connected(ChildBoard(level, s, m), p, q) <==>
      Connected(s, p, q) || (!Connected(s, m.first, m.second) && SameEdge(Move(p, q), m.first, m.second))
  {
    var c := Copy(s);
    var t := if level == MIN then c.(isComputerTurn := true) else c.(isComputerTurn := false);
    PlayEdgeConns(t, m.first, m.second);
    var r := ChildBoard(level, s, m);
    assert r.size == s.size && r.conns == PlayEdge(t, m.first, m.second).conns;
    forall p, q
      ensures Connected(t, p, q) == Connected(s, p, q)
      ensures Connected(r, p, q) == Connected(PlayEdge(t, m.first, m.second), p, q)
    {
    }
  }

  /** generateNodes: the tree below a node of level `kind` and board `s`,
      expanded to depth `ply`: at depth 0 or less a leaf, otherwise one
      child per free move, in the order of Moves, each expanded one level
      less from the board its move produces. */
  ghost function Expand(kind: NodeType, s: BoardState, ply: int): (r: GameTree)
    requires Shaped(s) && s.lastMove.Some?
    ensures r.kind == kind && r.board == s
    decreases ply
  {
    if ply <= 0 then GameTree(kind, s, [])
    else
      var ms := Moves(s);
      GameTree(kind, s, seq(|ms|, k requires 0 <= k < |ms| =>
        Expand(ChildLevel(kind), ChildBoard(ChildLevel(kind), s, ms[k]), ply - 1)))
  }

  /** The shape of the tree generateNodes builds: no node lies more than
      `ply` levels down, levels alternate, a node above depth `ply` is a
      leaf only when its board has no free move left, and each child's
      board is its parent's plus one free edge. */
  lemma {:induction false} ExpandShape(kind: NodeType, s: BoardState, ply: int)
    requires Shaped(s) && s.lastMove.Some?
    ensures var r := Expand(kind, s, ply);
      Within(r, ply) && Alternates(r) && LeavesJustified(r, ply) && OneEdgeApart(r)
    decreases ply, 1
  {
    var r := Expand(kind, s, ply);
    forall k | 0 <= k < |r.children|
      ensures r.children[k].kind == ChildLevel(kind) && r.children[k].board.lastMove.Some?
      ensures Within(r.children[k], ply - 1) && Alternates(r.children[k])
      ensures LeavesJustified(r.children[k], ply - 1) && OneEdgeApart(r.children[k])
      ensures OneMoreEdge(s, r.children[k].board, r.children[k].board.lastMove.value)
    {
      ExpandShapeChild(kind, s, ply, k);
    }
  }

  /** The same, for the k-th child, whose board is the parent's with the
      k-th free move added. */
  lemma {:induction false} ExpandShapeChild(kind: NodeType, s: BoardState, ply: int, k: int)
    requires Shaped(s) && s.lastMove.Some? && 0 <= k < |Expand(kind, s, ply).children|
    ensures var c := Expand(kind, s, ply).children[k];
      c.kind == ChildLevel(kind) && c.board.lastMove.Some? &&
      Within(c, ply - 1) && Alternates(c) && LeavesJustified(c, ply - 1) && OneEdgeApart(c) &&
      OneMoreEdge(s, c.board, c.board.lastMove.value)
    decreases ply, 0
  {
    var level := ChildLevel(kind);
    var c := ExpandChildIs(kind, s, ply, k);
    ExpandShape(level, c.board, ply - 1);
    ExpandChildEdge(kind, s, ply, k);
  }

  /** The k-th child is the tree expanded one level less from the board of
      the k-th free move. */
  lemma ExpandChildIs(kind: NodeType, s: BoardState, ply: int, k: int) returns (c: GameTree)
    requires Shaped(s) && s.lastMove.Some? && 0 <= k < |Expand(kind, s, ply).children|
    ensures ply >= 1 && k < |Moves(s)| && c == Expand(kind, s, ply).children[k]
    ensures Shaped(c.board) && c.board.lastMove.Some? && c.board == ChildBoard(ChildLevel(kind), s, Moves(s)[k])
    ensures c == Expand(ChildLevel(kind), c.board, ply - 1)
  {
    c := Expand(kind, s, ply).children[k];
    MovesFree(s);
  }

  /** The k-th child's board is the parent's with the k-th free move added,
      and that move is its last move. */
  lemma ExpandChildEdge(kind: NodeType, s: BoardState, ply: int, k: int)
    requires Shaped(s) && s.lastMove.Some? && 0 <= k < |Expand(kind, s, ply).children|
    ensures var c := Expand(kind, s, ply).children[k];
      c.board.lastMove == Some(Moves(s)[k]) && OneMoreEdge(s, c.board, Moves(s)[k])
  {
    var level := ChildLevel(kind);
    var m := Moves(s)[k];
    MovesFree(s);
    ChildBoardConns(level, s, m);
  }

  /** One child per free move, in the order of Moves, each on the board that
      move produces and of the opposite level; none at depth 0. */
  lemma ExpandChildren(kind: NodeType, s: BoardState, ply: int)
    requires Shaped(s) && s.lastMove.Some?
    ensures var r := Expand(kind, s, ply);
      |r.children| == (if ply <= 0 then 0 else |Moves(s)|) &&
      forall k :: 0 <= k < |r.children| ==>
        r.children[k].kind == ChildLevel(kind) &&
        r.children[k].board == ChildBoard(ChildLevel(kind), s, Moves(s)[k]) &&
        r.children[k].board.lastMove == Some(Moves(s)[k])
  {
  }

  /** Each child is the tree expanded one level less from its board. */
  lemma ExpandSubtrees(kind: NodeType, s: BoardState, ply: int)
    requires Shaped(s) && s.lastMove.Some? && ply >= 1
    ensures var r := Expand(kind, s, ply);
      |r.children| == |Moves(s)| &&
      forall k :: 0 <= k < |r.children| ==>
        Adjacent(s.size, Moves(s)[k].first, Moves(s)[k].second) &&
        r.children[k] == Expand(ChildLevel(kind), ChildBoard(ChildLevel(kind), s, Moves(s)[k]), ply - 1)
  {
  }

  // ---------------------------------------------------------------------
  // Backed-up values
  // ---------------------------------------------------------------------

  /** The largest element (`scores.max()!`). */
  function MaxOf(xs: seq<int>): (m: int)
    requires xs != []
    ensures m in xs && forall x :: x in xs ==> x <= m
  {
    if |xs| == 1 then xs[0]
    else
      var rest := MaxOf(xs[1..]);
      assert forall x :: x in xs ==> x == xs[0] || x in xs[1..];
      if xs[0] >= rest then xs[0] else rest
  }

  /** The smallest element (`scores.min()!`). */
  function MinOf(xs: seq<int>): (m: int)
    requires xs != []
    ensures m in xs && forall x :: x in xs ==> m <= x
  {
    if |xs| == 1 then xs[0]
    else
      var rest := MinOf(xs[1..]);
      assert forall x :: x in xs ==> x == xs[0] || x in xs[1..];
      if xs[0] <= rest then xs[0] else rest
  }

  /** The backed-up values of a node's children, in order. */
  ghost function ChildValues(t: GameTree): (r: seq<int>)
    ensures |r| == |t.children|
    decreases t, 0
  {
    seq(|t.children|, k requires 0 <= k < |t.children| => Value(t.children[k]))
  }

  /** backUpValues: a leaf is worth eval, a MAX node the largest and a MIN
      node the smallest value of its children. */
  ghost function Value(t: GameTree): int
    decreases t, 1
  {
    if t.children == [] then Eval(t.board)
    else if t.kind == MAX then MaxOf(ChildValues(t))
    else MinOf(ChildValues(t))
  }

  /** The value of an inner node is the value of one of its children, and
      bounds all of them from above (MAX) or below (MIN). */
  lemma ValueOfChildren(t: GameTree)
    requires t.children != []
    ensures exists k :: 0 <= k < |t.children| && Value(t.children[k]) == Value(t)
    ensures t.kind == MAX ==> forall k :: 0 <= k < |t.children| ==> Value(t.children[k]) <= Value(t)
    ensures t.kind == MIN ==> forall k :: 0 <= k < |t.children| ==> Value(t) <= Value(t.children[k])
  {
    var vs := ChildValues(t);
    var k :| 0 <= k < |vs| && vs[k] == Value(t);
    assert Value(t.children[k]) == Value(t);
    forall l | 0 <= l < |t.children|
      ensures t.kind == MAX ==> Value(t.children[l]) <= Value(t)
      ensures t.kind == MIN ==> Value(t) <= Value(t.children[l])
    {
      assert vs[l] in vs;
    }
  }

  /** Swift's `first(where: { $0 == v })`, as an index: the position of the
      first `v`, or |vs| when there is none. */
  function FirstIndex(vs: seq<int>, v: int): (i: int)
    ensures 0 <= i <= |vs|
    ensures i < |vs| ==> vs[i] == v
    ensures forall k :: 0 <= k < i ==> vs[k] != v
    ensures v in vs ==> i < |vs|
  {
    if vs == [] then 0
    else if vs[0] == v then 0
    else 1 + FirstIndex(vs[1..], v)
  }

  /** A scan that stops at the first `v`, or at the end, stops at
      FirstIndex. */
  lemma {:induction false} FirstIndexIs(vs: seq<int>, v: int, i: int)
    requires 0 <= i <= |vs|
    requires i < |vs| ==> vs[i] == v
    requires i == |vs| ==> v !in vs
    requires forall k :: 0 <= k < i ==> vs[k] != v
    ensures i == FirstIndex(vs, v)
    decreases |vs|
  {
    if vs != [] && vs[0] != v {
      assert forall k :: 0 <= k < |vs| - 1 ==> vs[1..][k] == vs[k + 1];
      FirstIndexIs(vs[1..], v, i - 1);
    }
  }

  // ---------------------------------------------------------------------
  // The decision
  // ---------------------------------------------------------------------

  /** The tree minimax searches from the live board `s`: a MAX root on a
      copy of it. */
  ghost function SearchTree(s: BoardState, ply: int): (r: GameTree)
    requires Shaped(s) && s.lastMove.Some?
    ensures r.kind == MAX && Shaped(r.board)
  {
    Expand(MAX, Copy(s), ply)
  }

  /** minimax: replay on the live board, as a computer move, the last move
      of the first child of the root whose value is the root's value; leave
      the board alone when the root has no children. */
  ghost function Decide(s: BoardState, ply: int): BoardState
    requires Shaped(s) && s.lastMove.Some?
  {
    var root := SearchTree(s, ply);
    var i := FirstIndex(ChildValues(root), Value(root));
    if i == |root.children| then s
    else
      ExpandChildren(MAX, Copy(s), ply);
      var m := root.children[i].board.lastMove.value;
      InitiateComputerMove(s, m.first, m.second)
  }

  /** Where minimax's scan of the root's values stops decides its move:
      at the end it leaves the board alone, otherwise the computer plays
      the last move of that child, an edge between two dots of the board. */
  lemma DecideAt(s: BoardState, ply: int, i: int)
    requires Shaped(s) && s.lastMove.Some?
    requires i == FirstIndex(ChildValues(SearchTree(s, ply)), Value(SearchTree(s, ply)))
    ensures var root := SearchTree(s, ply);
      i == |root.children| ==> Decide(s, ply) == s
    ensures var root := SearchTree(s, ply);
      i < |root.children| ==>
        var m := root.children[i].board.lastMove;
        m.Some? && Adjacent(s.size, m.value.first, m.value.second) &&
        Decide(s, ply) == InitiateComputerMove(s, m.value.first, m.value.second)
  {
    var root := SearchTree(s, ply);
    if i < |root.children| {
      MovesOfCopy(s);
      MovesFree(s);
      ExpandChildren(MAX, Copy(s), ply);
      assert Moves(s)[i] in Moves(s);
    }
  }

  /** Without a free move, or at depth 0, minimax leaves the board alone. */
  lemma DecideWithoutMoves(s: BoardState, ply: int)
    requires Shaped(s) && s.lastMove.Some?
    requires ply <= 0 || Moves(s) == []
    ensures Decide(s, ply) == s
  {
    MovesOfCopy(s);
    ExpandChildren(MAX, Copy(s), ply);
  }

  /** The child minimax picks at an inner MAX node: the first whose value
      is the node's value, which is the largest, every earlier child being
      worth strictly less. */
  lemma FirstBest(t: GameTree) returns (i: int)
    requires t.kind == MAX && t.children != []
    ensures i == FirstIndex(ChildValues(t), Value(t)) && 0 <= i < |t.children|
    ensures Value(t.children[i]) == Value(t)
    ensures forall k :: 0 <= k < |t.children| ==> Value(t.children[k]) <= Value(t)
    ensures forall k :: 0 <= k < i ==> Value(t.children[k]) < Value(t)
  {
    ValueOfChildren(t);
    var vs := ChildValues(t);
    var j :| 0 <= j < |t.children| && Value(t.children[j]) == Value(t);
    assert vs[j] == Value(t);
    i := FirstIndex(vs, Value(t));
    assert vs[i] == Value(t.children[i]);
    forall k | 0 <= k < i
      ensures Value(t.children[k]) < Value(t)
    {
      assert vs[k] == Value(t.children[k]);
    }
  }

  /** Otherwise the computer plays the free edge of the live board tried
      by the i-th child of the root: that child's value is the root's value,
      which is the largest, and every earlier child is worth strictly less. */
  lemma DecideMove(s: BoardState, ply: int) returns (i: int)
    requires Shaped(s) && s.lastMove.Some?
    requires ply > 0 && Moves(s) != []
    ensures 0 <= i < |Moves(s)|
    ensures var root := SearchTree(s, ply);
      |root.children| == |Moves(s)| &&
      Value(root.children[i]) == Value(root) &&
      (forall k :: 0 <= k < |root.children| ==> Value(root.children[k]) <= Value(root)) &&
      (forall k :: 0 <= k < i ==> Value(root.children[k]) < Value(root))
    ensures Adjacent(s.size, Moves(s)[i].first, Moves(s)[i].second)
    ensures !Connected(s, Moves(s)[i].first, Moves(s)[i].second)
    ensures Decide(s, ply) == InitiateComputerMove(s, Moves(s)[i].first, Moves(s)[i].second)
  {
    var root := SearchTree(s, ply);
    MovesOfCopy(s);
    MovesFree(s);
    ExpandChildren(MAX, Copy(s), ply);
    i := FirstBest(root);
  }

  /** The computer's reply keeps the board sound. */
  lemma DecideSound(s: BoardState, ply: int)
    requires Sound(s) && s.lastMove.Some?
    ensures Sound(Decide(s, ply))
  {
    if ply <= 0 || Moves(s) == [] {
      DecideWithoutMoves(s, ply);
    } else {
      var i := DecideMove(s, ply);
      MovesKeepSound(s, Moves(s)[i].first, Moves(s)[i].second);
    }
  }

  /** startComputerTurn: the computer replies at the board's own depth,
      and then it is the human's turn. */
  ghost function ComputerTurn(s: BoardState): BoardState
    requires Shaped(s) && s.lastMove.Some?
  {
    Decide(s, s.ply).(isComputerTurn := false)
  }

  /** The computer's turn keeps the board sound, and hands the turn over. */
  lemma ComputerTurnSound(s: BoardState)
    requires Sound(s) && s.lastMove.Some?
    ensures Sound(ComputerTurn(s)) && !ComputerTurn(s).isComputerTurn
  {
    DecideSound(s, s.ply);
    SoundIgnoresTurn(Decide(s, s.ply), false);
  }
}
