/** A snake (`Snake` in snakeai/gameplay/entities.py): its body, head first,
    and its heading, one of the four listed directions. */
module Snakes {
  import opened Geometry
  import opened Cells
  import opened Fields

  datatype Snake = Snake(body: seq<Point>, direction: Heading)

  /** The three actions an agent chooses from each tick (codes 0, 1, 2). */
  datatype Action = MaintainDirection | TurnLeft | TurnRight

  /** A new snake of `length` cells, laid out from `start` downwards
      (south), heading north: every cell after the head is one step
      behind the previous one. */
  function NewSnake(start: Point, length: nat): (s: Snake)
    ensures |s.body| == length && s.direction == North
    ensures length > 0 ==> s.body[0] == start
    ensures forall k :: 0 < k < length ==> s.body[k] == Sub(s.body[k - 1], North)
    ensures forall j, k :: 0 <= j < k < length ==> s.body[j] != s.body[k]
  {
    Snake(seq(length, k => Point(start.x, start.y + k)), North)
  }

  function Head(s: Snake): Point
    requires |s.body| > 0
  {
    s.body[0]
  }

  function Tail(s: Snake): Point
    requires |s.body| > 0
  {
    s.body[|s.body| - 1]
  }

  /** `peek_next_move`: the cell ahead of the head, a 4-neighbour of it. */
  function PeekNextMove(s: Snake): (p: Point)
    requires |s.body| > 0
    ensures Adjacent(Head(s), p) && p != Head(s)
  {
    HeadingIsUnitStep(Head(s), s.direction);
    Add(Head(s), s.direction)
  }

  /** `turn_left`: a quarter turn counter-clockwise; the body stays put. */
  function TurnLeft(s: Snake): (r: Snake)
    ensures r.body == s.body && r.direction == Point(s.direction.y, -s.direction.x)
  {
    s.(direction := LeftOf(s.direction))
  }

  /** `turn_right`: a quarter turn clockwise; the body stays put. */
  function TurnRight(s: Snake): (r: Snake)
    ensures r.body == s.body && r.direction == Point(-s.direction.y, s.direction.x)
  {
    s.(direction := RightOf(s.direction))
  }

  /** The heading the snake takes after an action. */
  function NextDirection(h: Heading, a: Action): Heading {
    match a
    case MaintainDirection => h
    case TurnLeft => LeftOf(h)
    case TurnRight => RightOf(h)
  }

  /** Applying an action to a snake (`choose_action` for one agent):
      only the heading changes, and it changes as the action says. */
  function Steer(s: Snake, a: Action): (r: Snake)
    ensures r.body == s.body
    ensures a == MaintainDirection ==> r == s
    ensures a != MaintainDirection ==> LeftOf(r.direction) == s.direction || RightOf(r.direction) == s.direction
    ensures r.direction == NextDirection(s.direction, a)
  {
    LeftRightCancel(s.direction);
    match a
    case MaintainDirection => s
    case TurnLeft => TurnLeft(s)
    case TurnRight => TurnRight(s)
  }

  /** The action that undoes a turn: left and right swap, keeping stays. */
  function Opposite(a: Action): Action {
    match a
    case MaintainDirection => MaintainDirection
    case TurnLeft => Action.TurnRight
    case TurnRight => Action.TurnLeft
  }

  /** Steering with the opposite action undoes a step of steering. */
  lemma SteerOpposite(s: Snake, a: Action)
    ensures Steer(Steer(s, a), Opposite(a)) == s
  {
    LeftRightCancel(s.direction);
  }

  /** `grow`: the cell ahead becomes the new head and nothing is dropped,
      so the snake is one longer and its old cells, tail included, stay. */
  function Grow(s: Snake): (r: Snake)
    requires |s.body| > 0
    ensures |r.body| == |s.body| + 1
    ensures Head(r) == Add(Head(s), s.direction) && r.direction == s.direction
    ensures forall k :: 0 <= k < |s.body| ==> r.body[k + 1] == s.body[k]
    ensures Tail(r) == Tail(s)
  {
    Snake([PeekNextMove(s)] + s.body, s.direction)
  }

  /** `move`: the cell ahead becomes the new head and the tail is dropped,
      so the length is unchanged, every cell shifts one place back, and the
      multiset of cells trades the old tail for the new head. */
  function Move(s: Snake): (r: Snake)
    requires |s.body| > 0
    ensures |r.body| == |s.body|
    ensures Head(r) == Add(Head(s), s.direction) && r.direction == s.direction
    ensures forall k :: 0 <= k < |s.body| - 1 ==> r.body[k + 1] == s.body[k]
    ensures multiset(r.body) + multiset{Tail(s)} == multiset(s.body) + multiset{Head(r)}
  {
    var n := |s.body|;
    assert s.body == s.body[..n - 1] + [Tail(s)];
    Snake([PeekNextMove(s)] + s.body[..n - 1], s.direction)
  }

  /** Moving is growing and then dropping the tail. */
  lemma MoveIsGrowWithoutTail(s: Snake)
    requires |s.body| > 0
    ensures Move(s).body == Grow(s).body[..|s.body|]
    ensures Move(s).direction == Grow(s).direction
  {
  }

  /** Whether `target` is `base` plus one of the offsets in `ds`
      (the loop over ALL_SNAKE_DIRECTIONS in `valid`). */
  function HitsOffset(base: Point, ds: seq<Point>, target: Point): (r: bool)
    ensures r <==> exists k :: 0 <= k < |ds| && Add(base, ds[k]) == target
  {
    if ds == [] then false
    else if Add(base, ds[0]) == target then true
    else
      var r := HitsOffset(base, ds[1..], target);
      assert forall k :: 0 < k < |ds| ==> ds[k] == ds[1..][k - 1];
      r
  }

  /** An offset in the direction list reaches exactly the 4-neighbours. */
  lemma HitsDirectionIffAdjacent(base: Point, target: Point)
    ensures HitsOffset(base, Directions, target) <==> Adjacent(base, target)
  {
    if Adjacent(base, target) {
      var d := Sub(target, base);
      assert d in Directions;
      var k :| 0 <= k < |Directions| && Directions[k] == d;
      assert Add(base, Directions[k]) == target;
    }
  }

  /** `valid`: an action is safe for a snake standing at `head` when the
      cell it leads to holds EMPTY (fruit counts as occupied: any non-zero
      code fails) and is not a 4-neighbour of the other snake's head. */
  function Valid(s: Snake, f: Field, action: Action, head: Point, other: Snake): (ok: bool)
    requires Square(f) && |other.body| > 0
    requires InBounds(f, Add(head, NextDirection(s.direction, action)))
    ensures ok <==>
      var target := Add(head, NextDirection(s.direction, action));
      Get(f, target) == Empty && !Adjacent(Head(other), target)
  {
    var target := Add(head, NextDirection(s.direction, action));
    HitsDirectionIffAdjacent(Head(other), target);
    if Code(Get(f, target)) != 0 then false
    else !HitsOffset(Head(other), Directions, target)
  }
}
