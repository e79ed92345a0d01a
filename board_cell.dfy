/** BoardCell.swift: a square of the board, enclosed by four dots, with its
    number, its point value and a flag per side saying whether that side has
    been drawn. */
module Cells {
  import opened BoardModel
  import opened Dots

  class BoardCell {
    /** The dots around the square: top-left, top-right, bottom-left,
        bottom-right. */
    const borderDots: seq<Dot>
    /** The number of the square on the board. */
    const num: int
    /** The points the square is worth, drawn from 1 ... 5. */
    var score: int

    var top: bool
    var right: bool
    var bottom: bool
    var left: bool

    /** The positions of the border dots (positions never change). */
    function Positions(): (r: seq<Coord>)
      ensures |r| == |borderDots| && forall k :: 0 <= k < |r| ==> r[k] == borderDots[k].Pos()
    {
      seq(|borderDots|, k requires 0 <= k < |borderDots| => borderDots[k].Pos())
    }

    /** The state of the square as a value. */
    ghost function Model(): Cell
      reads this
    {
      Cell(num, score, top, right, bottom, left)
    }

    /** A new square has no side drawn. `draw` is the value Int.random
        picks for its score. */
    constructor (num: int, borderDots: seq<Dot>, draw: int)
      requires 1 <= draw <= 5
      ensures this.num == num && this.borderDots == borderDots && score == draw
      ensures !top && !right && !bottom && !left
      ensures 1 <= score <= 5
    {
      this.borderDots := borderDots;
      this.num := num;
      score := draw;
      top, right, bottom, left := false, false, false, false;
    }

    /** getBorderDots: the dots given at construction. */
    function GetBorderDots(): (r: seq<Dot>)
      ensures r == borderDots
    {
      borderDots
    }

    /** copy: a new square with a new dot at the position of each border
        dot, the same number, flags and point value. Being a different
        object, it can be marked without touching this one. */
    method Copy() returns (square: BoardCell)
      ensures fresh(square) && square != this
      ensures square.Model() == Model() && square.Positions() == Positions()
      ensures |square.borderDots| == |borderDots|
      ensures forall k :: 0 <= k < |borderDots| ==>
        fresh(square.borderDots[k]) && square.borderDots[k].connections == borderDots[k].connections
    {
      var copyBorderDots: seq<Dot> := [];
      for k := 0 to |borderDots|
        invariant |copyBorderDots| == k
        invariant forall l :: 0 <= l < k ==>
          fresh(copyBorderDots[l]) && copyBorderDots[l].Pos() == borderDots[l].Pos() &&
          copyBorderDots[l].connections == borderDots[l].connections
      {
        var d := borderDots[k].Copy();
        copyBorderDots := copyBorderDots + [d];
      }
      // The draw is overwritten with this square's score just below.
      square := new BoardCell(num, copyBorderDots, 1);
      square.top := top;
      square.right := right;
      square.bottom := bottom;
      square.left := left;
      square.score := score;
    }
  }
}
