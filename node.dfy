/** Node.swift: a node of the search tree, holding its level, its own board
    and its children. The node's subtree as a value is kept in the ghost
    field `tree`, and `Repr` is every object the subtree is made of. */
module Nodes {
  import opened BoardModel
  import opened GameTreeModel
  import opened Boards

  class Node {
    /** MIN or MAX. */
    const kind: NodeType
    /** The board at this node; no other node shares any of its objects. */
    const board: Board
    /** The node this one was generated from, or null at the root. */
    const parent: Node?
    var children: seq<Node>
    /** The backed-up value; written only by backUpValues. */
    var score: int

    ghost var tree: GameTree
    ghost var Repr: set<object>

    /** The node and its subtrees own disjoint sets of objects, each
      holding its own board, every child names this node as its parent,
      and `tree` is the subtree's value: this node's level and board
      state, and its children's trees in order. The well-formedness of
      the boards themselves is not part of it: generateNodes asks for it
      of the board it expands. */
    ghost predicate Valid()
      reads this, Repr
      decreases Repr
    {
      this in Repr && board in Repr &&
      tree.kind == kind && tree.board == board.Model() &&
      |tree.children| == |children| &&
      (forall k :: 0 <= k < |children| ==>
        children[k] in Repr && children[k].Repr <= Repr &&
        this !in children[k].Repr && board !in children[k].Repr &&
        children[k].parent == this && children[k].Valid() && children[k].tree == tree.children[k]) &&
      (forall k, l :: 0 <= k < l < |children| ==> children[k].Repr !! children[l].Repr)
    }

    /** Every node of the subtree holds its backed-up value. */
    ghost predicate Scored()
      requires Valid()
      reads Repr
      decreases Repr
    {
      score == Value(tree) &&
      forall k :: 0 <= k < |children| ==> children[k].Scored()
    }

    /** init(is:parent:with:): a node without children holding `board`. */
    constructor (kind: NodeType, parent: Node?, board: Board)
      ensures Valid() && Repr == {this, board}
      ensures this.kind == kind && this.parent == parent && this.board == board
      ensures children == [] && score == 0 && tree == GameTree(kind, board.Model(), [])
    {
      this.kind := kind;
      this.board := board;
      this.parent := parent;
      children := [];
      score := 0;
      tree := GameTree(kind, board.Model(), []);
      Repr := {this, board};
    }

    /** A node stays valid when only its k-th subtree changed, and that
        subtree is still valid with the same objects and the same tree. */
    twostate lemma ChildFrame(k: int)
      requires old(Valid()) && 0 <= k < |old(children)|
      requires unchanged(this) && unchanged(Repr - children[k].Repr)
      requires children[k].Valid() && children[k].Repr == old(children[k].Repr)
      requires children[k].tree == old(children[k].tree)
      ensures Valid()
    {
    }

    /** A node stays valid when only its own score changed. */
    twostate lemma ScoreFrame()
      requires old(Valid()) && Repr == old(Repr) && unchanged(Repr - {this})
      requires children == old(children) && tree == old(tree)
      ensures Valid()
    {
    }

    /** The score of each child of a scored node is the value of the
        corresponding child of its tree. */
    lemma ChildScores()
      requires Valid() && Scored()
      ensures |children| == |ChildValues(tree)|
      ensures forall k :: 0 <= k < |children| ==> children[k].score == ChildValues(tree)[k]
    {
    }

    /** getBoard(). */
    function GetBoard(): (r: Board)
      ensures r == board
    {
      board
    }

    /** getType(). */
    function GetType(): (r: NodeType)
      ensures r == kind
    {
      kind
    }

    /** getChildren(): the children, whose trees are the children of this
        node's tree. */
    function GetChildren(): (r: seq<Node>)
      requires Valid()
      reads this, Repr
      ensures r == children && |r| == |tree.children|
      ensures forall k :: 0 <= k < |r| ==>
        r[k].Valid() && r[k].tree == tree.children[k] && r[k].board.Model() == tree.children[k].board
    {
      children
    }

    /** isLeaf(): a leaf is a node whose tree has no children. */
    function IsLeaf(): (r: bool)
      requires Valid()
      reads this, Repr
      ensures r <==> tree.children == []
    {
      |children| == 0
    }

    /** addChild(child:): the child goes last, and its tree becomes the last
        child of this node's tree. The child must own objects of its own. */
    method AddChild(child: Node)
      requires Valid() && child.Valid() && child.parent == this && child.Repr !! Repr
      modifies this
      ensures Valid() && children == old(children) + [child]
      ensures tree == old(tree).(children := old(tree.children) + [child.tree])
      ensures Repr == old(Repr) + child.Repr
      ensures score == old(score)
    {
      children := children + [child];
      tree := tree.(children := tree.children + [child.tree]);
      Repr := Repr + child.Repr;
    }
  }
}
