# Pipopipette engine in Dafny

This project models the engine of Pipopipette, a dots-and-boxes game played
by a human against the computer. Players take turns drawing an edge between
two neighbouring dots of a square grid. A player who draws the fourth side of
a square is credited with that square's points. The computer replies with a
bounded-depth minimax search over copies of the board.

The model has two layers.

- **Value layer.** `BoardModel` (board_model.dfy) describes a board as a
  value: the connection list of every dot, the four side flags and point value
  of every square, both scores, the turn flag, the last move and the search
  depth. Its functions are the board operations, and its lemmas state what
  they promise. `GameTreeModel` (game_tree_model.dfy) describes the search:
  - `Moves`: the moves generateNodes tries, in its order;
  - `Expand`: the tree generateNodes builds;
  - `Value`: what backUpValues computes;
  - `Decide`: what minimax does to the live board.
- **Object layer.** These classes follow the source's own objects, fields and
  loops: `Dots.Dot` (dot.dfy), `Cells.BoardCell` (board_cell.dfy),
  `Boards.Board` (board.dfy) and `Nodes.Node` (node.dfy). The `Minimax`
  module (minimax.dfy) holds generateNodes, backUpValues and minimax as
  methods.
  - A `Board` keeps ghost copies of its connection lists and square states.
    Its `Valid()` ties them to its `Dot` and `BoardCell` objects. Each board
    method is proved to change `Model()` exactly as the `BoardModel` function
    of the same name does.
  - A `Node` keeps its subtree as a ghost `GameTree` value.
  - `GenerateNodes` is proved to build `Expand`, `BackUpValues` to store
    `Value` in every node's score, and `Minimax` to leave the live board in
    the state `Decide` gives.

Dots are named by 0-based coordinates, and a dot's connection list holds the
coordinates of the dots it is linked to.

Three behaviours of the code are worth stating, because the model keeps
them as they are:

- **Playing an edge that is already drawn.** Only `Dot.connect` returns
  early (Pipopipette/Dot.swift:28-32). The board's move methods still record
  the last move, set the side flags again and run `fillSquare` on the touched
  squares (Pipopipette/Board.swift:57-61, 89-93, 107-111), so a closed square
  is credited a second time. The score-conservation lemmas therefore require
  the edge to be new. The search only plays pairs that are not yet
  connected (Pipopipette/Minimax.swift:123).
- **The guard of a human move.** `initiateHumanMove` checks only whose turn
  it is (Pipopipette/Board.swift:52-54). Adjacency and an existing connection
  are for its caller to check. The model requires adjacent dots of the
  board and takes any connection state.
- **The turn after `copy()`.** A copy does not carry the turn flag over. The
  new board starts with `isComputerTurn == false`
  (Pipopipette/Board.swift:27-36, 289-296).

## Model

| member | source | states |
|---|---|---|
| BoardModel.AdjacentsMembers | Pipopipette/Board.swift:174-194 | For a dot on the board, getAdjacents lists exactly the dots on the board one step away from it. |
| BoardModel.AdjacentsOrdered | Pipopipette/Board.swift:179-192 | The neighbours come in the order up, right, down, left. |
| BoardModel.AdjacentsCount | Pipopipette/Board.swift:170-194 | A corner dot has 2 neighbours, a dot on a side 3, and an inner dot 4. |
| BoardModel.AreAdjacent | Pipopipette/Board.swift:132-138 | areAdjacent holds iff both dots are on the board and one step apart. |
| BoardModel.AreAdjacentSymmetric | Pipopipette/Board.swift:132-138 | areAdjacent does not depend on the order of its arguments. |
| BoardModel.Connect | Pipopipette/Dot.swift:28-51 | Linking two dots already linked changes nothing. Otherwise exactly the pair is linked, in both directions, and no other link changes. |
| BoardModel.Touched | Pipopipette/Board.swift:201-247 | The squares checkForSquares looks at are on the grid: one for an edge on the boundary, two distinct ones otherwise. |
| BoardModel.TouchedSides | Pipopipette/Board.swift:206-247 | The (square, side) pairs checkForSquares marks are exactly the sides that the edge forms. |
| BoardModel.MarkAllCell | Pipopipette/Board.swift:211-245 | Marking sets exactly the listed sides of a square. A square's number and point value stay, and a square no touch names is unchanged. |
| BoardModel.FillAll | Pipopipette/Board.swift:249-263 | fillSquare on each touched square: the player whose turn it is gains the value of the touched squares that are closed. The other score and everything else stay. |
| BoardModel.CheckForSquares | Pipopipette/Board.swift:201-263 | Marking then filling: the mover gains the value of the touched squares once they are marked, and the other player gains nothing. Connections, turn, last move and depth do not change. |
| BoardModel.CheckForSquaresCells | Pipopipette/Board.swift:201-247 | After checkForSquares, a side flag is set iff it was set before or the edge forms that side. No square's number or point value changes. |
| BoardModel.PlayEdgeConns | Pipopipette/Board.swift:56-61 | A move links exactly its two dots, both ways, if they were not linked, and changes no link if they were. |
| BoardModel.PlayEdgeScores | Pipopipette/Board.swift:255-263 | The player whose turn it is gains a non-negative amount. The other score, the turn and the depth stay, and the move becomes the last move. |
| BoardModel.PlayEdgeSum | Pipopipette/Board.swift:201-263 | On a new edge, the sum of the closed squares' values grows by exactly what the two players are credited. |
| BoardModel.TouchedOpen | Pipopipette/Board.swift:207-247 | On a sound board, the squares a new edge touches are still open. |
| BoardModel.PlayEdgeSound | Pipopipette/Board.swift:201-263 | A move on a new edge keeps the board sound: links symmetric, flags matching links, and the scores adding up to the value of the closed squares, each credited once. |
| BoardModel.MovesKeepSound | Pipopipette/Board.swift:50-114 | All three move operations keep the board sound when the edge is new. |
| BoardModel.SoundIgnoresTurn | Pipopipette/Board.swift:268-297 | Resetting the turn flag, as copy() does, keeps a board sound. |
| BoardModel.MoveScores | Pipopipette/Board.swift:50-114 | initiateHumanMove does nothing on the computer's turn. Otherwise it and simulateHumanMove credit only the human and end on the computer's turn. initiateComputerMove credits only the computer and ends on the human's turn. All record the move as the last move, and no score decreases. |
| BoardModel.NewGameSound | Pipopipette/Board.swift:27-36 | A new board (no links, no flags, zero scores, squares worth at least 1) is sound. |
| BoardModel.MarkAllSum | Pipopipette/Board.swift:249-263 | Marking sides of distinct open squares raises the closed-square sum by exactly the value of the marked squares. |
| GameTreeModel.ChildLevel | Pipopipette/Minimax.swift:92-98 | A node's children are on the opposite level. |
| GameTreeModel.EvalMoves | Pipopipette/Minimax.swift:76-78 | A computer move never lowers eval, and a human move never raises it. |
| GameTreeModel.MovesExactly | Pipopipette/Minimax.swift:110-124 | The moves generateNodes makes from a board are exactly the ordered pairs of adjacent dots not yet connected. |
| GameTreeModel.Moves | Pipopipette/Minimax.swift:110-124 | Every move generateNodes tries joins two adjacent dots of the board. |
| GameTreeModel.MovesFree | Pipopipette/Minimax.swift:121-124 | Every generated move joins adjacent dots not yet connected. |
| GameTreeModel.MovesOrdered | Pipopipette/Minimax.swift:110-121 | Moves come in a strict order: by the first dot's row, then its column, then the direction up, right, down, left. So no move is generated twice. |
| GameTreeModel.MovesBothWays | Pipopipette/Minimax.swift:110-124 | On a sound board, a free edge is generated from both of its ends, so it yields two children. |
| GameTreeModel.MovesOfCopy | Pipopipette/Minimax.swift:129-131 | A copy of a board offers the same moves as the board. |
| GameTreeModel.DotNumberInRange | Pipopipette/Minimax.swift:110-115 | Dot number d, for d below size*size, is the dot at row d / size and column d % size, on the board. |
| GameTreeModel.CandidatesUpToStep | Pipopipette/Minimax.swift:110-115 | The candidates of dots 0 .. d are those of dots 0 .. d-1 followed by the four of dot d. |
| GameTreeModel.CandidatesUpToEnds | Pipopipette/Minimax.swift:110 | The loop over dot numbers starts with no candidates and ends with those of every dot of the grid. |
| GameTreeModel.FreeDotCandidates | Pipopipette/Minimax.swift:121-124 | The free candidates of a dot are the free moves among the dots getAdjacents offers. |
| GameTreeModel.FreeUpToStep | Pipopipette/Minimax.swift:110-124 | The moves from dots 0 .. d are the moves from dots 0 .. d-1 followed by the free moves from dot d. |
| GameTreeModel.Play | Pipopipette/Minimax.swift:133-138 | The move played for a child's level keeps the grid, and the move becomes the board's last move. |
| GameTreeModel.ChildBoardConns | Pipopipette/Minimax.swift:129-138 | A child's board has its parent's links plus exactly the one move's edge. |
| GameTreeModel.ExpandShape | Pipopipette/Minimax.swift:85-155 | The tree generateNodes builds has no node more than ply levels deep and alternates levels. A node above depth ply is a leaf only when its board has no free move. Every child's board is its parent's with one more edge, that edge being its last move. |
| GameTreeModel.ExpandChildren | Pipopipette/Minimax.swift:88-90 | At ply 0 or less there are no children. Otherwise there is one child per move, in the order of Moves, of the opposite level, on the board that move produces. |
| GameTreeModel.ExpandSubtrees | Pipopipette/Minimax.swift:141-143 | Each child is expanded to depth ply - 1 from its own board. |
| GameTreeModel.MaxOf | Pipopipette/Minimax.swift:63 | scores.max() is an element of the scores and no score exceeds it. |
| GameTreeModel.MinOf | Pipopipette/Minimax.swift:66 | scores.min() is an element of the scores and no score is below it. |
| GameTreeModel.ValueOfChildren | Pipopipette/Minimax.swift:51-70 | An inner node's value is some child's value. It bounds all children from above at a MAX node and from below at a MIN node. |
| GameTreeModel.FirstIndex | Pipopipette/Minimax.swift:30 | first(where:) as an index: the first position holding the value, or the length when there is none. |
| GameTreeModel.FirstIndexIs | Pipopipette/Minimax.swift:30 | A scan that stops at the first match, or at the end, stops at FirstIndex. |
| GameTreeModel.FirstBest | Pipopipette/Minimax.swift:27-30 | At a MAX node, the chosen child has the node's value, which is the largest, and every earlier child is worth strictly less. |
| GameTreeModel.DecideAt | Pipopipette/Minimax.swift:30-38 | If no child holds the root's value the board is left alone. Otherwise the computer replays that child's last move, an edge between dots of the board. |
| GameTreeModel.DecideWithoutMoves | Pipopipette/Minimax.swift:30-38 | At ply 0 or less, or without a free edge, minimax leaves the live board unchanged. |
| GameTreeModel.DecideMove | Pipopipette/Minimax.swift:16-35 | With ply above 0 and a free edge, the computer plays a free edge of the live board. It is the edge of the first child whose value is the root's value, the largest, and every earlier child is worth strictly less. |
| GameTreeModel.DecideSound | Pipopipette/Minimax.swift:16-39 | The computer's reply keeps a sound board sound. |
| GameTreeModel.ComputerTurnSound | Pipopipette/Board.swift:74-78 | startComputerTurn keeps the board sound and hands the turn to the human. |
| Dots.Dot.constructor | Pipopipette/Dot.swift:12-22 | A new dot has its 0-based row and column, the ones Board.swift reads as `dot.x` and `dot.y`, and no connections. |
| Dots.Dot.Copy | Pipopipette/Board.swift:274 | A dot copy is a new object with the same position and connections. |
| Dots.Dot.HasConnection | Pipopipette/Dot.swift:53-55 | hasConnection holds iff the other dot is in the list. |
| Dots.Dot.RegisterConnection | Pipopipette/Dot.swift:49-51 | Appends the other dot to this dot's list only, unconditionally. |
| Dots.Dot.Connect | Pipopipette/Dot.swift:28-47 | A no-op when already linked. Otherwise both lists record the link, so both dots are linked afterwards. Lists only grow. |
| Cells.BoardCell.constructor | Pipopipette/BoardCell.swift:15-28 | A new square has its number and border dots, no side drawn, and a score between 1 and 5. |
| Cells.BoardCell.GetBorderDots | Pipopipette/BoardCell.swift:31-33 | Returns the border dots given at construction. |
| Cells.BoardCell.Copy | Pipopipette/BoardCell.swift:38-50 | A new square with the same number, flags and score, and one new dot per border dot at the same position and with the same connections. It is another object than the original. |
| Boards.Board.constructor | Pipopipette/Board.swift:27-36 | A new board has no scores, is on the human's turn, has no last move and depth 0. Its dots and squares are the ones given. |
| Boards.Board.SetPly | Pipopipette/Board.swift:41-43 | Only the depth changes. |
| Boards.Board.UpdateLastMove | Pipopipette/Board.swift:122-124 | Only the last move changes. |
| Boards.Board.GetLastMove | Pipopipette/Board.swift:127-129 | Returns the two dots of the last move, which must exist. |
| Boards.Board.GetHumanScore | Pipopipette/Board.swift:141-143 | Returns the human's score. |
| Boards.Board.SetHumanScore | Pipopipette/Board.swift:146-148 | Only the human's score changes. |
| Boards.Board.GetComputerScore | Pipopipette/Board.swift:151-153 | Returns the computer's score. |
| Boards.Board.SetComputerScore | Pipopipette/Board.swift:156-158 | Only the computer's score changes. |
| Boards.Board.GetDots | Pipopipette/Board.swift:161-163 | Returns the dot grid. |
| Boards.Board.GetSquares | Pipopipette/Board.swift:166-168 | Returns the square grid. |
| Boards.Board.DotIf | Pipopipette/Board.swift:180-192 | One guarded append of getAdjacents: the dot at the position when the test passes, nothing otherwise. |
| Boards.Board.GetAdjacents | Pipopipette/Board.swift:174-194 | Returns the board's dots at the positions Adjacents lists, in that order. |
| Boards.Board.AreAdjacent | Pipopipette/Board.swift:132-138 | True iff the other dot is a dot of this board one step away. |
| Boards.Board.AdjacentAt | Pipopipette/Minimax.swift:121-123 | The k-th dot getAdjacents returns is one step from the dot, and hasConnection to it reads the board's record of links. |
| Boards.Board.ConnectDots | Pipopipette/Board.swift:56-57 | dot.connect on two dots of the board changes the board as Connect does. |
| Boards.Board.SetComputerTurn | Pipopipette/Board.swift:63 | Only the turn flag changes. |
| Boards.Board.MarkSides | Pipopipette/Board.swift:206-247 | Sets the flags of the sides the edge forms, returning the squares in the order Touched lists them. |
| Boards.Board.MarkRowEdge | Pipopipette/Board.swift:207-226 | The three branches for an edge along a row. |
| Boards.Board.MarkColumnEdge | Pipopipette/Board.swift:227-246 | The three branches for an edge along a column. |
| Boards.Board.MarkBorderEdge | Pipopipette/Board.swift:209-218 | An edge on the boundary marks its one square. |
| Boards.Board.MarkInnerEdge | Pipopipette/Board.swift:219-225 | An inner edge marks both of its squares, in order. |
| Boards.Board.MarkSide | Pipopipette/Board.swift:212 | Drawing one side of one square changes that flag only. |
| Boards.Board.FillSquares | Pipopipette/Board.swift:249-251 | fillSquare on each marked square, in order, changes the board as FillAll does. |
| Boards.Board.FillSquare | Pipopipette/Board.swift:255-263 | A closed square's score goes to the player whose turn it is. |
| Boards.Board.CheckForSquares | Pipopipette/Board.swift:201-253 | Changes the board as BoardModel.CheckForSquares does. |
| Boards.Board.InitiateHumanMove | Pipopipette/Board.swift:50-63 | Changes the board as BoardModel.InitiateHumanMove does. |
| Boards.Board.SimulateHumanMove | Pipopipette/Board.swift:85-96 | Changes the board as BoardModel.SimulateHumanMove does. |
| Boards.Board.InitiateComputerMove | Pipopipette/Board.swift:103-114 | Changes the board as BoardModel.InitiateComputerMove does. |
| Boards.Board.CopyDots | Pipopipette/Board.swift:269-278 | A new dot at every position, with the connections of the dot there. |
| Boards.Board.CopyDotRow | Pipopipette/Board.swift:272-277 | One row of CopyDots. |
| Boards.Board.CopySquares | Pipopipette/Board.swift:279-287 | A new square per square, in the same state, no two the same object. |
| Boards.Board.CopySquareRow | Pipopipette/Board.swift:282-286 | One row of CopySquares. |
| Boards.Board.Copy | Pipopipette/Board.swift:265-297 | A board made only of new objects, in the same state except that it is on the human's turn. Its last move names the original's dots, and the original does not change. |
| Nodes.Node.constructor | Pipopipette/Node.swift:18-25 | A new node has its level, parent and board, no children and score 0. |
| Nodes.Node.GetBoard | Pipopipette/Node.swift:28-30 | Returns the board given at construction. |
| Nodes.Node.GetType | Pipopipette/Node.swift:33-35 | Returns the level given at construction. |
| Nodes.Node.GetChildren | Pipopipette/Node.swift:38-40 | Returns the children in insertion order, whose trees are the node's subtrees. |
| Nodes.Node.IsLeaf | Pipopipette/Node.swift:50-53 | True iff the node has no children. |
| Nodes.Node.AddChild | Pipopipette/Node.swift:43-45 | Appends the child last, keeping the earlier children, and its tree becomes the last subtree. The node's score, which only evaluation writes (Node.swift:18), stays. |
| Nodes.Node.ChildScores | Pipopipette/Minimax.swift:30 | In a scored tree, each child's score is its backed-up value. |
| Minimax.EvalAt | Pipopipette/Minimax.swift:76-78 | eval is the computer's score minus the human's on the node's board. |
| Minimax.GenerateNodes | Pipopipette/Minimax.swift:85-155 | Builds below a childless node exactly the tree Expand describes. New nodes are fresh objects, and the node's score stays as it was. |
| Minimax.GenerateAllDots | Pipopipette/Minimax.swift:106-152 | The loop over all dot numbers generates the subtrees of all of Moves, in order. The node's score stays. |
| Minimax.GenerateAtDotNumber | Pipopipette/Minimax.swift:110-115 | Dot number d adds the subtrees of the free moves from the dot at row d / size and column d % size. The node's score stays. |
| Minimax.GenerateFromDot | Pipopipette/Minimax.swift:121-148 | Adds the subtrees for the free moves from one dot, in getAdjacents' order. The node's score stays. |
| Minimax.GenerateIfFree | Pipopipette/Minimax.swift:122-147 | Adds nothing when the two dots are connected, one subtree otherwise. The node's score stays. |
| Minimax.GenerateChild | Pipopipette/Minimax.swift:141-143 | Adds the subtree for one move as the last child. The node's score stays. |
| Minimax.Subtree | Pipopipette/Minimax.swift:141-143 | The new node, expanded to depth ply - 1 on its own board. |
| Minimax.NewNode | Pipopipette/Minimax.swift:129-141 | A new childless node of the child level, on the board ChildBoard gives. |
| Minimax.PlayOnCopy | Pipopipette/Minimax.swift:129-138 | A copy of the board with the move played for the level. The parent's board does not change. |
| Minimax.BackUpValues | Pipopipette/Minimax.swift:51-70 | Stores in every node of the subtree its Value (eval at a leaf, max at MAX, min at MIN) and returns the root's. The tree does not change. |
| Minimax.Minimax | Pipopipette/Minimax.swift:16-39 | The live board ends in the state Decide gives. |
| Minimax.Search | Pipopipette/Minimax.swift:19-27 | Returns a fresh, fully scored tree equal to SearchTree and the root's value. |
| Minimax.GrowTree | Pipopipette/Minimax.swift:19-24 | A MAX root on a copy of the live board, expanded to depth ply. |
| Minimax.NewRoot | Pipopipette/Minimax.swift:19 | A childless MAX node on a copy of the live board. |
| Minimax.FirstScoring | Pipopipette/Minimax.swift:30 | The index of the first child whose score is the root's value, or the child count. |
| Minimax.PlayChoice | Pipopipette/Minimax.swift:31-35 | Replays the chosen child's last move, by coordinates, on the live board as a computer move. |
| Minimax.StartComputerTurn | Pipopipette/Board.swift:74-78 | The computer replies at the board's depth, then it is the human's turn. |

## Left out

- Concurrency. The `DispatchQueue` calls in `initiateHumanMove` and `minimax`
  and the `DispatchGroup` in `generateNodes` are sequential code here.
  `startComputerTurn` is `Minimax.StartComputerTurn`, called by whoever ends
  the human's move.
- Boards.Board.InitiateHumanMove: does not start the computer's turn itself,
  because that hand-over runs asynchronously on another thread.
- Rendering. The line drawn in `Dot.connect`, the SpriteKit sprite `Dot`
  derives from, the `original` flag and `setAsOriginal` are left out. The flag
  only chooses whether a line is drawn.
- The `print` calls, including minimax's error message when the root has no
  children.
- Dots.Dot.Copy: stands for SpriteKit's inherited `copy()`, whose code is
  not part of this model. It is taken to copy the position and the
  connection list.
- Dots.Dot.constructor: takes the dot's 0-based row and column, which
  Board.swift reads as `dot.x` and `dot.y` and uses as indices into `dots`
  and `squares`. Dot.swift declares no such fields; its only initializer is
  `init(_ num:, from gameScene:)`. The one construction, in
  GameScene.swift:53-59, passes a four-argument form with row and column
  counted from 1. With those values `getAdjacents` on the last row would read
  `dots[size]`, out of range. The model therefore assumes 0-based values. It
  drops `num` and `gameScene`: nothing in the board, the nodes or the search
  reads a dot's `num`, and `gameScene` is only used to draw the line.
- Dot identity. Connection lists hold coordinates, and `contains` compares
  dots by position rather than by object identity.
- Cells.BoardCell.constructor: takes the value `Int.random(in: 1...5)` would
  draw as a parameter `draw` in 1 ... 5, because randomness is not modelled.
- Boards.Board.InitiateHumanMove, Boards.Board.SimulateHumanMove,
  Boards.Board.InitiateComputerMove, Boards.Board.CheckForSquares: require the
  two dots to be adjacent dots of the board. Every caller guarantees this:
  the game checks adjacency before a human move, and the search takes pairs
  from getAdjacents. On other pairs the source would index outside the
  square grid or mark an unrelated square.
- Boards.Board.GetLastMove, Boards.Board.Copy, Minimax.Minimax: require a
  last move, because the source force-unwraps it and would crash.
- Minimax.GenerateNodes: requires the node to have no children yet. Every
  call passes a node just made.
- Minimax.GenerateChild: adds the child after its subtree is generated. The
  source adds it first. No one can observe the difference, because the
  recursion only touches the new node's own objects.
- Nodes.Node.Valid: does not include the validity of the boards of the tree.
  generateNodes asks for it of the board it expands.
- The parameters of the `Board` constructor are the source's, plus two ghost
  parameters naming the state the given dots and squares are in.
- `numDots` and `numSquares` are kept as constants. Nothing reads them.
- The game scene and the view controller (layout, touch handling, menus) are
  not part of this model. The only rule taken from them is the caller's check
  before a human move.
