/** Dot.swift: a dot of the board and the list of the dots it is connected
    to. Dots are named by their position, so a connection is recorded as the
    position of the other dot. */
module Dots {
  import opened BoardModel

  class Dot {
    /** Row and column of the dot on its board, counted from 0. */
    const x: int
    const y: int
    /** The positions of the dots this one is connected to, oldest first. */
    var connections: seq<Coord>

    function Pos(): Coord {
      Coord(x, y)
    }

    constructor (x: int, y: int)
      ensures this.x == x && this.y == y && connections == []
    {
      this.x := x;
      this.y := y;
      connections := [];
    }

    /** A dot with the same position and the same connections (stands for
        the SpriteKit copy the game relies on). */
    method Copy() returns (d: Dot)
      ensures fresh(d) && d.x == x && d.y == y && d.connections == connections
    {
      d := new Dot(x, y);
      d.connections := connections;
    }

    /** hasConnection(with:): `other` is in the connection list. */
    function HasConnection(other: Dot): (r: bool)
      reads this
      ensures r <==> other.Pos() in connections
    {
      other.Pos() in connections
    }

    /** registerConnection(with:): appends `other` to this dot's list only,
        whether or not it is already there. */
    method RegisterConnection(other: Dot)
      modifies this
      ensures connections == old(connections) + [other.Pos()]
    {
      connections := connections + [other.Pos()];
    }

    /** connect(to:), without drawing the line: nothing happens when the
        link is already in the list; otherwise the link is recorded on both
        dots (twice on the one list when a dot is linked to itself). Either
        way both dots are linked afterwards, and the lists only grow. */
    method Connect(other: Dot)
      modifies this, other
      ensures old(HasConnection(other)) ==>
        connections == old(connections) && other.connections == old(other.connections)
      ensures !old(HasConnection(other)) && other != this ==>
        connections == old(connections) + [other.Pos()] &&
        other.connections == old(other.connections) + [Pos()]
      ensures !old(HasConnection(other)) && other == this ==>
        connections == old(connections) + [Pos(), Pos()]
      ensures HasConnection(other) && (!old(HasConnection(other)) ==> other.HasConnection(this))
      ensures old(connections) <= connections && old(other.connections) <= other.connections
    {
      if other.Pos() in connections {
        return;
      }
      connections := connections + [other.Pos()];
      other.RegisterConnection(this);
    }
  }
}
