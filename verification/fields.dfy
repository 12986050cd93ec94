/** The playing field (`Field` in snakeai/gameplay/entities.py): an N×N grid
    of cell types, indexed `cells[y][x]`, together with the auxiliary set of
    coordinates whose cell is EMPTY, which every write keeps in step. */
module Fields {
  import opened Errors
  import opened Geometry
  import opened Cells

  datatype Field = Field(cells: seq<seq<Cell>>, empty: set<Point>)

  /** Every row is as long as there are rows. */
  predicate Square(f: Field) {
    forall y :: 0 <= y < |f.cells| ==> |f.cells[y]| == |f.cells|
  }

  predicate InBounds(f: Field, p: Point) {
    0 <= p.x < |f.cells| && 0 <= p.y < |f.cells|
  }

  predicate OnField(f: Field, ps: seq<Point>) {
    forall k :: 0 <= k < |ps| ==> InBounds(f, ps[k])
  }

  /** `__getitem__`. */
  function Get(f: Field, p: Point): Cell
    requires Square(f) && InBounds(f, p)
  {
    f.cells[p.y][p.x]
  }

  /** The empty-cell set is exactly the set of cells tagged EMPTY. */
  ghost predicate EmptyInv(f: Field) {
    && Square(f)
    && forall p :: p in f.empty <==> InBounds(f, p) && Get(f, p) == Empty
  }

  /** `__setitem__`: writes one cell and adds it to, or removes it from, the
      empty-cell set. Every other cell keeps its type, and the empty-cell
      invariant survives the write. */
  function Put(f: Field, p: Point, c: Cell): (r: Field)
    requires Square(f) && InBounds(f, p)
    ensures Square(r) && |r.cells| == |f.cells|
    ensures Get(r, p) == c
    ensures forall q :: InBounds(f, q) && q != p ==> Get(r, q) == Get(f, q)
    ensures EmptyInv(f) ==> EmptyInv(r)
  {
    Field(f.cells[p.y := f.cells[p.y][p.x := c]],
          if c == Empty then f.empty + {p} else f.empty - {p})
  }

  /** `get_observation`: an N×N copy of the grid as integer codes. */
  function Observation(f: Field): (obs: seq<seq<int>>)
    requires Square(f)
    ensures |obs| == |f.cells|
    ensures forall y :: 0 <= y < |obs| ==> |obs[y]| == |f.cells|
    ensures forall p :: InBounds(f, p) ==> obs[p.y][p.x] == Code(Get(f, p))
  {
    seq(|f.cells|, y requires 0 <= y < |f.cells| =>
      seq(|f.cells[y]|, x requires 0 <= x < |f.cells[y]| => Code(f.cells[y][x])))
  }

  /** The observation determines the grid: two fields of the same size
      with equal observations hold the same cell types everywhere. */
  lemma ObservationDeterminesGrid(f: Field, g: Field)
    requires Square(f) && Square(g) && |f.cells| == |g.cells|
    requires Observation(f) == Observation(g)
    ensures f.cells == g.cells
  {
    forall y | 0 <= y < |f.cells|
      ensures f.cells[y] == g.cells[y]
    {
      forall x | 0 <= x < |f.cells|
        ensures f.cells[y][x] == g.cells[y][x]
      {
        var p := Point(x, y);
        assert Code(Get(f, p)) == Code(Get(g, p));
        CodeInjective(Get(f, p), Get(g, p));
      }
    }
  }

  /** Row-major order of the scan in `find_snake_head`: by row, then by column. */
  predicate Before(p: Point, q: Point) {
    p.y < q.y || (p.y == q.y && p.x < q.x)
  }

  /** The two nested loops of `find_snake_head`, resumed at column `x` of
      row `y`: the first cell at or after (x, y) in row-major order that
      holds `marker`, if there is one. */
  function Scan(f: Field, marker: Cell, x: nat, y: nat): (r: Option<Point>)
    requires Square(f) && x <= |f.cells|
    decreases |f.cells| - y, |f.cells| - x
    ensures r.Some? ==>
      && InBounds(f, r.value) && Get(f, r.value) == marker
      && !Before(r.value, Point(x, y))
      && forall q :: InBounds(f, q) && !Before(q, Point(x, y)) && Before(q, r.value) ==> Get(f, q) != marker
    ensures r.None? ==>
      forall q :: InBounds(f, q) && !Before(q, Point(x, y)) ==> Get(f, q) != marker
  {
    if y >= |f.cells| then None
    else if x == |f.cells| then Scan(f, marker, 0, y + 1)
    else if Get(f, Point(x, y)) == marker then Some(Point(x, y))
    else Scan(f, marker, x + 1, y)
  }

  /** `find_snake_head`: the first cell in row-major order holding the head
      marker, or a failure when no cell holds it. */
  function FindSnakeHead(f: Field, marker: Cell): (r: Result<Point>)
    requires Square(f)
    ensures r.Success? ==>
      && InBounds(f, r.value) && Get(f, r.value) == marker
      && forall q :: InBounds(f, q) && Before(q, r.value) ==> Get(f, q) != marker
    ensures r.Failure? <==> forall q :: InBounds(f, q) ==> Get(f, q) != marker
    ensures r.Failure? ==> r.error == MissingSnakeHead(Code(marker))
  {
    match Scan(f, marker, 0, 0)
    case Some(p) => Success(p)
    case None => Failure(MissingSnakeHead(Code(marker)))
  }

  /** Writes `c` into every listed cell, front to back. */
  function Stamp(f: Field, ps: seq<Point>, c: Cell): (r: Field)
    requires Square(f) && OnField(f, ps)
    ensures Square(r) && |r.cells| == |f.cells|
    ensures forall k :: 0 <= k < |ps| ==> Get(r, ps[k]) == c
    ensures forall q :: InBounds(f, q) && q !in ps ==> Get(r, q) == Get(f, q)
    ensures EmptyInv(f) ==> EmptyInv(r)
    decreases |ps|
  {
    if ps == [] then f
    else
      var g := Put(f, ps[0], c);
      assert forall k :: 0 < k < |ps| ==> ps[k] == ps[1..][k - 1];
      Stamp(g, ps[1..], c)
  }

  /** One iteration of `place_snake`: tag the head of snake `i`, then the
      rest of its body. Cells off the body keep their type. */
  function PlaceSnake(f: Field, body: seq<Point>, i: AgentId): (r: Field)
    requires Square(f) && |body| > 0 && OnField(f, body)
    ensures Square(r) && |r.cells| == |f.cells|
    ensures body[0] !in body[1..] ==> Get(r, body[0]) == SnakeHead(i)
    ensures forall k :: 1 <= k < |body| ==> Get(r, body[k]) == SnakeBody(i)
    ensures forall q :: InBounds(f, q) && q !in body ==> Get(r, q) == Get(f, q)
    ensures EmptyInv(f) ==> EmptyInv(r)
  {
    var g := Put(f, body[0], SnakeHead(i));
    assert forall k :: 1 <= k < |body| ==> body[k] == body[1..][k - 1];
    Stamp(g, body[1..], SnakeBody(i))
  }

  /** `place_snake` for the two snakes, snake 0 first. Where the bodies do
      not meet, each body ends up tagged with its owner's head and body. */
  function PlaceSnakes(f: Field, body0: seq<Point>, body1: seq<Point>): (r: Field)
    requires Square(f) && |body0| > 0 && |body1| > 0 && OnField(f, body0) && OnField(f, body1)
    ensures Square(r) && |r.cells| == |f.cells|
    ensures forall k :: 1 <= k < |body1| ==> Get(r, body1[k]) == SnakeBody(1)
    ensures body1[0] !in body1[1..] ==> Get(r, body1[0]) == SnakeHead(1)
    ensures forall k :: 1 <= k < |body0| && body0[k] !in body1 ==> Get(r, body0[k]) == SnakeBody(0)
    ensures body0[0] !in body0[1..] && body0[0] !in body1 ==> Get(r, body0[0]) == SnakeHead(0)
    ensures forall q :: InBounds(f, q) && q !in body0 && q !in body1 ==> Get(r, q) == Get(f, q)
    ensures EmptyInv(f) ==> EmptyInv(r)
  {
    PlaceSnake(PlaceSnake(f, body0, 0), body1, 1)
  }

  /** The cell types a new head does not overwrite: WALL and either body. */
  predicate Blocks(c: Cell) {
    c == Wall || c.SnakeBody?
  }

  /** `update_snake_footprint`: the old head becomes body; the old tail, when
      one was vacated, becomes EMPTY; the new head is tagged as head unless
      it now holds a wall or a body, except that the cell vacated by the tail
      this tick is always entered. No other cell changes. */
  function UpdateSnakeFootprint(f: Field, oldHead: Point, oldTail: Option<Point>,
                                newHead: Point, i: AgentId): (r: Field)
    requires Square(f) && InBounds(f, oldHead) && InBounds(f, newHead)
    requires oldTail.Some? ==> InBounds(f, oldTail.value)
    ensures Square(r) && |r.cells| == |f.cells|
    ensures EmptyInv(f) ==> EmptyInv(r)
    ensures Get(r, newHead) ==
      if oldTail == Some(newHead) then SnakeHead(i)
      else if newHead == oldHead then SnakeBody(i)
      else if Blocks(Get(f, newHead)) then Get(f, newHead)
      else SnakeHead(i)
    ensures oldHead != newHead ==>
      Get(r, oldHead) == if oldTail == Some(oldHead) then Empty else SnakeBody(i)
    ensures oldTail.Some? && oldTail.value != newHead ==> Get(r, oldTail.value) == Empty
    ensures forall q :: InBounds(f, q) && q != oldHead && oldTail != Some(q) && q != newHead ==>
      Get(r, q) == Get(f, q)
  {
    var g1 := Put(f, oldHead, SnakeBody(i));
    // A Point is a non-empty tuple, so `if old_tail:` only tests for None.
    var g2 := if oldTail.Some? then Put(g1, oldTail.value, Empty) else g1;
    if !Blocks(Get(g2, newHead)) || oldTail == Some(newHead) then Put(g2, newHead, SnakeHead(i))
    else g2
  }
}
