/** Points, headings and the fixed cyclic list of the four directions
    (`Point`, `SnakeDirection` and `ALL_SNAKE_DIRECTIONS` in
    snakeai/gameplay/entities.py). The y axis grows downwards: row 0 is the
    top row of a level map, so NORTH is (0, -1). */
module Geometry {

  /** A cell coordinate or a direction offset. */
  datatype Point = Point(x: int, y: int)

  /** Coordinate-wise addition; subtracting the same offset undoes it. */
  function Add(p: Point, d: Point): (r: Point)
    ensures Sub(r, d) == p
  {
    Point(p.x + d.x, p.y + d.y)
  }

  /** Coordinate-wise subtraction. */
  function Sub(p: Point, d: Point): Point {
    Point(p.x - d.x, p.y - d.y)
  }

  /** Subtraction followed by addition of the same offset is the identity. */
  lemma SubThenAdd(p: Point, d: Point)
    ensures Add(Sub(p, d), d) == p
  {
  }

  function Abs(n: int): nat {
    if n < 0 then -n else n
  }

  /** Two cells are 4-neighbours: they differ by one step along one axis. */
  predicate Adjacent(p: Point, q: Point) {
    Abs(p.x - q.x) + Abs(p.y - q.y) == 1
  }

  const North := Point(0, -1)
  const East := Point(1, 0)
  const South := Point(0, 1)
  const West := Point(-1, 0)

  /** The canonical cyclic order NORTH, EAST, SOUTH, WEST. */
  const Directions: seq<Point> := [North, East, South, West]

  /** A heading is one of the four listed directions. */
  type Heading = d: Point | d in Directions witness North

  /** A heading is a unit step: moving along it reaches a 4-neighbour. */
  lemma HeadingIsUnitStep(p: Point, d: Heading)
    ensures Adjacent(p, Add(p, d))
    ensures Add(p, d) != p
  {
  }

  /** `list.index`: the position of the first element equal to `v`. */
  function IndexIn<T(==)>(s: seq<T>, v: T): (k: nat)
    requires v in s
    ensures k < |s| && s[k] == v
    ensures forall j :: 0 <= j < k ==> s[j] != v
  {
    if s[0] == v then 0 else 1 + IndexIn(s[1..], v)
  }

  /** The position of a heading in the canonical list. */
  function IndexOf(h: Heading): (k: nat)
    ensures k < |Directions| && Directions[k] == h
  {
    IndexIn(Directions, h)
  }

  /** `turn_left`: one step back in the cyclic list. Index -1 is Python's
      name for the last element, so NORTH turns into WEST. The result is
      the quarter turn counter-clockwise on the screen. */
  function LeftOf(h: Heading): (r: Heading)
    ensures r == Point(h.y, -h.x)
  {
    var k := IndexOf(h) - 1;
    Directions[if k < 0 then k + |Directions| else k]
  }

  /** `turn_right`: one step forward in the cyclic list, wrapping modulo
      its length. The result is the quarter turn clockwise on the screen. */
  function RightOf(h: Heading): (r: Heading)
    ensures r == Point(-h.y, h.x)
  {
    Directions[(IndexOf(h) + 1) % |Directions|]
  }

  /** Turning left from NORTH goes through Python's index -1 and gives WEST. */
  lemma LeftOfNorthIsWest()
    ensures LeftOf(North) == West
  {
  }

  /** A left turn and a right turn cancel, in either order. */
  lemma LeftRightCancel(h: Heading)
    ensures RightOf(LeftOf(h)) == h
    ensures LeftOf(RightOf(h)) == h
  {
  }

  /** Four turns in the same direction make a full circle, and no fewer do. */
  lemma FourTurnsRestore(h: Heading)
    ensures RightOf(RightOf(RightOf(RightOf(h)))) == h
    ensures LeftOf(LeftOf(LeftOf(LeftOf(h)))) == h
    ensures RightOf(h) != h && RightOf(RightOf(h)) != h && RightOf(RightOf(RightOf(h))) != h
    ensures LeftOf(h) != h && LeftOf(LeftOf(h)) != h && LeftOf(LeftOf(LeftOf(h))) != h
  {
  }
}
