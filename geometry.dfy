/** Grid cells and the four headings a light cycle can take (client_evaks.cpp:39-50). */
module Geometry {

  /** A grid cell, compared by value, as sf::Vector2i is. The y axis grows southwards. */
  datatype Position = Position(x: int, y: int)

  /** The closed set of moves: there is no "none" and no diagonal, so the
      source's `default:` branch that throws on an unknown direction cannot be reached. */
  datatype Direction = North | South | East | West

  function Abs(n: int): nat
  {
    if n < 0 then -n else n
  }

  /** getDirectionVector: the unit offset of a heading. The three ensures
      together pin down each of the four vectors. */
  function Offset(d: Direction): (v: Position)
    ensures Abs(v.x) + Abs(v.y) == 1
    ensures v.x == 0 <==> d == North || d == South
    ensures v.x + v.y > 0 <==> d == South || d == East
  {
    match d
    case North => Position(0, -1)
    case South => Position(0, 1)
    case East => Position(1, 0)
    case West => Position(-1, 0)
  }

  function Add(p: Position, v: Position): Position
  {
    Position(p.x + v.x, p.y + v.y)
  }

  /** The cell reached from `p` by one step towards `d` (`position + getDirectionVector(d)`). */
  function Neighbour(p: Position, d: Direction): (q: Position)
    ensures Abs(q.x - p.x) + Abs(q.y - p.y) == 1
  {
    Add(p, Offset(d))
  }

  /** The four offsets are pairwise distinct, so the four neighbours of a cell are too. */
  lemma NeighboursDistinct(p: Position, d1: Direction, d2: Direction)
    ensures Neighbour(p, d1) == Neighbour(p, d2) <==> d1 == d2
  {
  }
}
