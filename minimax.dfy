/** Minimax.swift: the computer's search. generateNodes grows the tree below
    a node, backUpValues writes each node's value into its score, and
    minimax plays, on the live board, the move of the first child of the
    root that holds the root's value. Each is proved to compute the
    corresponding function of GameTreeModel. */
module Minimax {
  import opened BoardModel
  import opened GameTreeModel
  import opened Dots
  import opened Boards
  import opened Nodes

  /** `trees` are the subtrees generated, at depth `ply`, for the moves
      `ms` from board `s`: one per move, on the board that move produces. */
  ghost predicate Generated(level: NodeType, s: BoardState, ms: seq<Move>, ply: int, trees: seq<GameTree>) {
    Shaped(s) && s.lastMove.Some? && |trees| == |ms| &&
    (forall k :: 0 <= k < |ms| ==> Adjacent(s.size, ms[k].first, ms[k].second)) &&
    forall k {:trigger ChildBoard(level, s, ms[k])} :: 0 <= k < |ms| ==>
      trees[k] == Expand(level, ChildBoard(level, s, ms[k]), ply - 1)
  }

  lemma GeneratedAppend(level: NodeType, s: BoardState, ms: seq<Move>, ply: int, trees: seq<GameTree>,
                        ms': seq<Move>, trees': seq<GameTree>)
    requires Generated(level, s, ms, ply, trees) && Generated(level, s, ms', ply, trees')
    ensures Generated(level, s, ms + ms', ply, trees + trees')
  {
    var m, t := ms + ms', trees + trees';
    forall k | 0 <= k < |m|
      ensures Adjacent(s.size, m[k].first, m[k].second) && t[k] == Expand(level, ChildBoard(level, s, m[k]), ply - 1)
    {
      if k < |ms| {
        assert m[k] == ms[k] && t[k] == trees[k];
      } else {
        var l := k - |ms|;
        assert m[k] == ms'[l] && t[k] == trees'[l];
      }
    }
  }

  /** Once the trees for all the moves of `s` are generated, the node's
      tree is the one Expand builds. */
  lemma GeneratedAll(kind: NodeType, s: BoardState, ply: int, trees: seq<GameTree>)
    requires ply >= 1 && Shaped(s) && s.lastMove.Some? && Generated(ChildLevel(kind), s, Moves(s), ply, trees)
    ensures GameTree(kind, s, trees) == Expand(kind, s, ply)
  {
    ExpandSubtrees(kind, s, ply);
  }

  /** Appending is associative, for the trees of a node's children. */
  lemma AppendAssoc(a: seq<GameTree>, b: seq<GameTree>, c: seq<GameTree>)
    ensures a + b + c == a + (b + c)
  {
  }

  /** Taking one more candidate of `moves` keeps it exactly when it is
      free. */
  lemma FreeOfNext(s: BoardState, moves: seq<Move>, j: int)
    requires Shaped(s) && 0 <= j < |moves|
    ensures FreeOf(s, moves[..j + 1]) == FreeOf(s, moves[..j]) + FreeOf(s, [moves[j]])
  {
    assert moves[..j + 1] == moves[..j] + [moves[j]];
    FreeOfAppend(s, moves[..j], [moves[j]]);
  }

  /** eval(at:): the computer's lead on the node's board. */
  function EvalAt(node: Node): (r: int)
    requires node.Valid()
    reads node.Repr
    ensures r == Eval(node.tree.board)
  {
    node.board.GetComputerScore() - node.board.GetHumanScore()
  }

  /** generateNodes(from:to:): below a node without children come, in the
      order of Moves, the subtrees of all its free moves, each expanded to
      depth ply - 1, so that the node's tree is the one Expand builds; at
      depth 0 or less nothing happens. The node's board is left alone, and
      so is its score, which only evaluation writes. */
  method GenerateNodes(node: Node, ply: int)
    requires node.Valid() && node.board.Valid() && node.board.lastMove.Some? && node.children == []
    modifies node
    ensures node.Valid() && fresh(node.Repr - old(node.Repr)) && node.score == old(node.score)
    ensures node.tree == Expand(node.kind, old(node.tree.board), ply)
    decreases ply, 6
  {
    ghost var s := node.tree.board;
    if ply <= 0 {
      return;
    }
    var nodeLevel: NodeType;
    if node.GetType() == MAX {
      nodeLevel := MIN;
    } else {
      nodeLevel := MAX;
    }
    ghost var trees := GenerateAllDots(node, nodeLevel, ply);
    GeneratedAll(node.kind, s, ply, trees);
  }

  /** The loop of generateNodes: every dot number in turn, from 0 to the
      number of dots, generates the children for the moves from its dot. */
  method GenerateAllDots(node: Node, nodeLevel: NodeType, ply: int) returns (ghost trees: seq<GameTree>)
    requires node.Valid() && node.board.Valid() && node.board.lastMove.Some? && ply >= 1
    requires node.tree == GameTree(node.kind, node.board.Model(), [])
    modifies node
    ensures node.Valid() && fresh(node.Repr - old(node.Repr)) && node.score == old(node.score)
    ensures node.tree == GameTree(node.kind, old(node.tree.board), trees)
    ensures Generated(nodeLevel, old(node.tree.board), Moves(old(node.tree.board)), ply, trees)
    decreases ply, 5
  {
    ghost var s := node.tree.board;
    var board := node.GetBoard();
    var dots := board.GetDots();
    var dotsPerSide := board.size;
    ghost var done: seq<Move> := [];
    trees := [];
    CandidatesUpToEnds(dotsPerSide);
    MulMono(0, dotsPerSide, dotsPerSide);
    for dotNumber := 0 to dotsPerSide * dotsPerSide
      invariant node.Valid() && node.board.Valid() && fresh(node.Repr - old(node.Repr)) && node.score == old(node.score)
      invariant node.tree == GameTree(node.kind, s, trees)
      invariant done == FreeOf(s, CandidatesUpTo(dotsPerSide, dotNumber))
      invariant Generated(nodeLevel, s, done, ply, trees)
    {
      ghost var before := node.Repr;
      done, trees := GenerateAtDotNumber(node, nodeLevel, dots, dotNumber, ply, s, done, trees);
      assert node.Repr - old(node.Repr) <= (node.Repr - before) + (before - old(node.Repr));
    }
  }

  /** One round of generateNodes' loop: dot number d is the dot in row
      d / size and column d % size, and the moves from it join the moves
      generated so far. */
  method GenerateAtDotNumber(node: Node, nodeLevel: NodeType, dots: seq<seq<Dot>>, dotNumber: int, ply: int,
                             ghost s: BoardState, ghost done: seq<Move>, ghost trees: seq<GameTree>)
      returns (ghost done': seq<Move>, ghost trees': seq<GameTree>)
    requires node.Valid() && node.board.Valid() && node.board.lastMove.Some? && ply >= 1
    requires dots == node.board.dots && s == node.board.Model() && node.tree == GameTree(node.kind, s, trees)
    requires 0 <= dotNumber < s.size * s.size
    requires done == FreeOf(s, CandidatesUpTo(s.size, dotNumber)) && Generated(nodeLevel, s, done, ply, trees)
    modifies node
    ensures node.Valid() && node.board.Valid() && fresh(node.Repr - old(node.Repr)) && node.score == old(node.score)
    ensures node.tree == GameTree(node.kind, s, trees')
    ensures done' == FreeOf(s, CandidatesUpTo(s.size, dotNumber + 1)) && Generated(nodeLevel, s, done', ply, trees')
    decreases ply, 4
  {
    var dotsPerSide := node.board.size;
    var row := dotNumber / dotsPerSide;
    var col := dotNumber % dotsPerSide;
    DotNumberInRange(dotsPerSide, dotNumber);
    FreeUpToStep(s, dotNumber);
    var dot := dots[row][col];
    ghost var added, grown, made := GenerateFromDot(node, nodeLevel, dot, ply, s, trees);
    GeneratedAppend(nodeLevel, s, done, ply, trees, added, grown);
    done', trees' := done + added, trees + grown;
  }

  /** The body of generateNodes' loop for one dot: a child for each
      adjacent dot not yet connected to it, in getAdjacents' order. */
  method GenerateFromDot(node: Node, nodeLevel: NodeType, dot: Dot, ply: int, ghost s: BoardState, ghost trees: seq<GameTree>)
      returns (ghost added: seq<Move>, ghost grown: seq<GameTree>, ghost made: set<object>)
    requires node.Valid() && node.board.Valid() && node.board.lastMove.Some? && ply >= 1
    requires node.board.IsDot(dot) && s == node.board.Model() && node.tree == GameTree(node.kind, s, trees)
    modifies node
    ensures node.Valid() && node.board.Valid() && fresh(made) && node.Repr == old(node.Repr) + made
    ensures node.score == old(node.score)
    ensures node.tree == GameTree(node.kind, s, trees + grown)
    ensures added == FreeOf(s, AdjacentMoves(s.size, dot.Pos()))
    ensures Generated(nodeLevel, s, added, ply, grown)
    decreases ply, 3
  {
    var board := node.GetBoard();
    var adjacents := board.GetAdjacents(dot);
    ghost var moves := AdjacentMoves(s.size, dot.Pos());
    added, grown, made := [], [], {};
    assert trees + grown == trees;
    for j := 0 to |adjacents|
      invariant node.Valid() && node.board.Valid() && fresh(made) && node.Repr == old(node.Repr) + made
      invariant node.score == old(node.score)
      invariant node.tree == GameTree(node.kind, s, trees + grown)
      invariant added == FreeOf(s, moves[..j])
      invariant Generated(nodeLevel, s, added, ply, grown)
    {
      board.AdjacentAt(dot, adjacents, j);
      ghost var kept, more, madeNow := GenerateIfFree(node, nodeLevel, dot, adjacents[j], ply, s, trees + grown);
      FreeOfNext(s, moves, j);
      assert moves[j] == Move(dot.Pos(), adjacents[j].Pos());
      GeneratedAppend(nodeLevel, s, added, ply, grown, kept, more);
      AppendAssoc(trees, grown, more);
      added, grown, made := added + kept, grown + more, made + madeNow;
    }
    assert moves[..|adjacents|] == moves;
  }

  /** One turn of the inner loop of generateNodes: unless `dot` is already
      connected to `adjacent`, the subtree for the move between them is
      added last to the node. */
  method GenerateIfFree(node: Node, nodeLevel: NodeType, dot: Dot, adjacent: Dot, ply: int,
                        ghost s: BoardState, ghost prior: seq<GameTree>)
      returns (ghost kept: seq<Move>, ghost grown: seq<GameTree>, ghost made: set<object>)
    requires node.Valid() && node.board.Valid() && node.board.lastMove.Some? && ply >= 1
    requires s == node.board.Model() && node.tree == GameTree(node.kind, s, prior)
    requires Adjacent(s.size, dot.Pos(), adjacent.Pos())
    requires dot.HasConnection(adjacent) <==> Connected(s, dot.Pos(), adjacent.Pos())
    modifies node
    ensures node.Valid() && node.board.Valid() && fresh(made) && node.Repr == old(node.Repr) + made
    ensures node.score == old(node.score)
    ensures node.tree == GameTree(node.kind, s, prior + grown)
    ensures kept == FreeOf(s, [Move(dot.Pos(), adjacent.Pos())])
    ensures Generated(nodeLevel, s, kept, ply, grown)
    decreases ply, 2
  {
    ghost var m := Move(dot.Pos(), adjacent.Pos());
    FreeOfSnoc(s, [], m);
    assert [] + [m] == [m];
    if dot.HasConnection(adjacent) {
      kept, grown, made := [], [], {};
      assert prior + grown == prior;
    } else {
      ghost var tree;
      tree, made := GenerateChild(node, nodeLevel, dot, adjacent, ply, s, prior);
      node.board.ValidFrame();
      kept, grown := [m], [tree];
    }
  }

  /** One child of generateNodes: the subtree for the move from `dot` to
      `adjacent`, added last to the node. */
  method GenerateChild(node: Node, nodeLevel: NodeType, dot: Dot, adjacent: Dot, ply: int,
                       ghost s: BoardState, ghost prior: seq<GameTree>)
      returns (ghost tree: GameTree, ghost made: set<object>)
    requires node.Valid() && node.board.Valid() && node.board.lastMove.Some? && ply >= 1
    requires s == node.board.Model() && node.tree == GameTree(node.kind, s, prior)
    requires Adjacent(s.size, dot.Pos(), adjacent.Pos())
    modifies node
    ensures node.Valid() && fresh(made) && node.Repr == old(node.Repr) + made
    ensures node.score == old(node.score)
    ensures Generated(nodeLevel, s, [Move(dot.Pos(), adjacent.Pos())], ply, [tree])
    ensures node.tree == GameTree(node.kind, s, prior + [tree])
    decreases ply, 1
  {
    var newNode := Subtree(node, nodeLevel, dot, adjacent, ply, s);
    tree, made := newNode.tree, newNode.Repr;
    node.AddChild(newNode);
  }

  /** The new node of generateNodes' loop, made by `NewNode` and expanded to
      depth ply - 1. Nothing that existed before changes. */
  method Subtree(node: Node, nodeLevel: NodeType, dot: Dot, adjacent: Dot, ply: int, ghost s: BoardState)
      returns (newNode: Node)
    requires node.board.Valid() && node.board.lastMove.Some? && ply >= 1 && s == node.board.Model()
    requires Adjacent(node.board.size, dot.Pos(), adjacent.Pos())
    ensures fresh(newNode.Repr) && newNode.Valid() && newNode.parent == node
    ensures newNode.tree == Expand(nodeLevel, ChildBoard(nodeLevel, s, Move(dot.Pos(), adjacent.Pos())), ply - 1)
    decreases ply, 0
  {
    newNode := NewNode(node, nodeLevel, dot, adjacent, s);
    GenerateNodes(newNode, ply - 1);
  }

  /** The new node of generateNodes' loop, holding the board `PlayOnCopy`
      makes for the move from `dot` to `adjacent`. */
  method NewNode(node: Node, nodeLevel: NodeType, dot: Dot, adjacent: Dot, ghost s: BoardState)
      returns (newNode: Node)
    requires node.board.Valid() && node.board.lastMove.Some? && s == node.board.Model()
    requires Adjacent(node.board.size, dot.Pos(), adjacent.Pos())
    ensures fresh(newNode.Repr)
    ensures newNode.Valid()
    ensures newNode.parent == node
    ensures newNode.children == [] && newNode.board.Valid() && newNode.board.lastMove.Some?
    ensures newNode.tree == GameTree(nodeLevel, ChildBoard(nodeLevel, s, Move(dot.Pos(), adjacent.Pos())), [])
  {
    var newBoard := PlayOnCopy(node.GetBoard(), nodeLevel, dot, adjacent, s);
    newNode := new Node(nodeLevel, node, newBoard);
  }

  /** A copy of `board` with the move from `dot` to `adjacent` played on
      it, as the computer's on a MIN level and as the human's on a MAX
      level; `board` itself does not change. */
  method PlayOnCopy(board: Board, nodeLevel: NodeType, dot: Dot, adjacent: Dot, ghost s: BoardState)
      returns (newBoard: Board)
    requires board.Valid() && board.lastMove.Some? && s == board.Model()
    requires Adjacent(board.size, dot.Pos(), adjacent.Pos())
    ensures fresh(newBoard) && fresh(newBoard.Repr()) && newBoard.Valid() && newBoard.lastMove.Some?
    ensures newBoard.Model() == ChildBoard(nodeLevel, s, Move(dot.Pos(), adjacent.Pos()))
  {
    newBoard := board.Copy();
    assert fresh(newBoard.Repr());
    var newDots := newBoard.GetDots();
    var one, two := newDots[dot.x][dot.y], newDots[adjacent.x][adjacent.y];
    if nodeLevel == MIN {
      newBoard.InitiateComputerMove(one, two);
    } else {
      newBoard.SimulateHumanMove(one, two);
    }
  }

  /** backUpValues(from:): every node of the subtree gets its backed-up
      value as its score, and the root's is returned; the tree itself does
      not change. */
  method BackUpValues(node: Node) returns (r: int)
    requires node.Valid()
    modifies node.Repr
    ensures node.Valid() && node.Repr == old(node.Repr) && node.tree == old(node.tree)
    ensures node.Scored() && r == Value(node.tree)
    decreases node.Repr
  {
    if node.IsLeaf() {
      node.score := EvalAt(node);
      node.ScoreFrame();
      return node.score;
    }
    var scores: seq<int> := [];
    var children := node.GetChildren();
    for k := 0 to |children|
      invariant unchanged(node) && node.Valid()
      invariant |scores| == k
      invariant forall l :: 0 <= l < k ==> children[l].Valid() && children[l].Scored() && scores[l] == Value(node.tree.children[l])
    {
      label before:
      var score := BackUpValues(children[k]);
      node.ChildFrame@before(k);
      scores := scores + [score];
    }
    assert scores == ChildValues(node.tree);
    label backedUp:
    match node.GetType() {
      case MAX =>
        node.score := MaxOf(scores);
      case MIN =>
        node.score := MinOf(scores);
    }
    node.ScoreFrame@backedUp();
    return node.score;
  }

  /** minimax(on:to:): search a copy of the live board to depth `ply` and
      play, as the computer, the move of the first child of the root whose
      score is the root's; with no child, leave the board as it is. */
  method Minimax(currentBoard: Board, ply: int)
    requires currentBoard.Valid() && currentBoard.lastMove.Some?
    modifies currentBoard.Repr()
    ensures currentBoard.Valid() && currentBoard.Model() == Decide(old(currentBoard.Model()), ply)
  {
    ghost var s := currentBoard.Model();
    var startnode, maxScore := Search(currentBoard, ply);
    ghost var root := startnode.tree;
    var children := startnode.GetChildren();
    var i := FirstScoring(startnode, maxScore);
    DecideAt(s, ply, i);
    if i < |children| {
      var boardChoice := children[i];
      PlayChoice(currentBoard, boardChoice.GetBoard(), root.children[i].board.lastMove.value);
    }
  }

  /** The scan in minimax for the first child of a scored node whose
      score is `maxScore`: its index in the node's values, or the number
      of children when there is none. */
  method FirstScoring(node: Node, maxScore: int) returns (i: int)
    requires node.Valid() && node.Scored()
    ensures 0 <= i <= |node.children| && i == FirstIndex(ChildValues(node.tree), maxScore)
  {
    var children := node.GetChildren();
    i := 0;
    while i < |children| && children[i].score != maxScore
      invariant 0 <= i <= |children|
      invariant forall k :: 0 <= k < i ==> children[k].score != maxScore
    {
      i := i + 1;
    }
    node.ChildScores();
    FirstIndexIs(ChildValues(node.tree), maxScore, i);
  }

  /** The move minimax makes: the last move of the chosen child's board,
      replayed as a computer move on the live board's own dots. */
  method PlayChoice(currentBoard: Board, choice: Board, ghost m: Move)
    requires currentBoard.Valid() && choice.Model().lastMove == Some(m)
    requires Adjacent(currentBoard.size, m.first, m.second)
    modifies currentBoard.Repr()
    ensures currentBoard.Valid() && currentBoard.Model() == InitiateComputerMove(old(currentBoard.Model()), m.first, m.second)
  {
    var dotOne, dotTwo := choice.GetLastMove();
    var currentDots := currentBoard.GetDots();
    currentBoard.DotAt(dotOne.Pos());
    currentBoard.DotAt(dotTwo.Pos());
    currentBoard.InitiateComputerMove(currentDots[dotOne.x][dotOne.y], currentDots[dotTwo.x][dotTwo.y]);
  }

  /** The search half of minimax: a MAX root on a copy of the live board,
      its subtree generated to depth `ply` and its scores backed up; the
      live board itself is left alone. */
  method Search(currentBoard: Board, ply: int) returns (startnode: Node, maxScore: int)
    requires currentBoard.Valid() && currentBoard.lastMove.Some?
    ensures fresh(startnode.Repr) && startnode.Valid() && startnode.Scored()
    ensures startnode.tree == SearchTree(currentBoard.Model(), ply) && maxScore == Value(startnode.tree)
  {
    startnode := GrowTree(currentBoard, ply);
    maxScore := BackUpValues(startnode);
  }

  /** The first half of minimax: a MAX root on a copy of the live board,
      with its tree generated to depth `ply`. */
  method GrowTree(currentBoard: Board, ply: int) returns (startnode: Node)
    requires currentBoard.Valid() && currentBoard.lastMove.Some?
    ensures fresh(startnode.Repr) && startnode.Valid()
    ensures startnode.tree == SearchTree(currentBoard.Model(), ply)
  {
    startnode := NewRoot(currentBoard);
    ghost var rootRepr := startnode.Repr;
    GenerateNodes(startnode, ply);
    assert fresh(startnode.Repr) by {
      assert startnode.Repr == rootRepr + (startnode.Repr - rootRepr);
    }
  }

  /** The root of the search: a MAX node without children on a copy of
      the live board. */
  method NewRoot(currentBoard: Board) returns (startnode: Node)
    requires currentBoard.Valid() && currentBoard.lastMove.Some?
    ensures fresh(startnode.Repr) && startnode.Repr == {startnode, startnode.board}
    ensures startnode.Valid() && startnode.children == []
    ensures startnode.board.Valid() && startnode.board.lastMove.Some?
    ensures startnode.kind == MAX && startnode.tree == GameTree(MAX, Copy(currentBoard.Model()), [])
  {
    var boardCopy := currentBoard.Copy();
    startnode := new Node(MAX, null, boardCopy);
  }

  /** startComputerTurn, after the hand-over to the computer's thread: the
      computer replies at the board's depth, then it is the human's turn. */
  method StartComputerTurn(board: Board)
    requires board.Valid() && board.lastMove.Some?
    modifies board.Repr()
    ensures board.Valid() && board.Model() == ComputerTurn(old(board.Model()))
  {
    Minimax(board, board.ply);
    board.SetComputerTurn(false);
  }
}
