/** The agreement between the snakes and the grid that the engine keeps
    while an episode runs: each snake's cells carry its own head and body
    tags, no body repeats a cell, the two bodies are apart, and exactly one
    cell holds the fruit. Every tick that does not end the episode keeps it. */
module Invariants {
  import opened Errors
  import opened Geometry
  import opened Cells
  import opened Fields
  import opened Levels
  import opened Snakes
  import opened Environment

  /** The cells of snake i carry its tags: its head first, its body after. */
  ghost predicate Tagged(f: Field, body: seq<Point>, i: AgentId)
    requires Square(f) && OnField(f, body)
  {
    forall k :: 0 <= k < |body| ==> Get(f, body[k]) == if k == 0 then SnakeHead(i) else SnakeBody(i)
  }

  ghost predicate NoRepeats(body: seq<Point>) {
    forall j, k :: 0 <= j < k < |body| ==> body[j] != body[k]
  }

  ghost predicate Apart(a: seq<Point>, b: seq<Point>) {
    forall j, k :: 0 <= j < |a| && 0 <= k < |b| ==> a[j] != b[k]
  }

  /** The fruit cell is the only cell tagged FRUIT. */
  ghost predicate SoleFruit(f: Field, fruit: Point)
    requires Square(f)
  {
    && InBounds(f, fruit)
    && forall p :: InBounds(f, p) ==> (Get(f, p) == Fruit <==> p == fruit)
  }

  ghost predicate SnakeOk(f: Field, s: Snake, i: AgentId)
    requires Square(f)
  {
    Placed(f, s) && Tagged(f, s.body, i) && NoRepeats(s.body)
  }

  ghost predicate Consistent(e: Env) {
    && Wf(e)
    && SnakeOk(e.field, e.snakes[0], 0)
    && SnakeOk(e.field, e.snakes[1], 1)
    && Apart(e.snakes[0].body, e.snakes[1].body)
    && e.fruit.Some? && SoleFruit(e.field, e.fruit.value)
  }

  /** The invariant does not mention the counter or the game-over flag. */
  lemma ConsistentIgnoresCounters(e: Env, e': Env)
    requires Consistent(e)
    requires e' == e.(timestepIndex := e'.timestepIndex, isGameOver := e'.isGameOver)
    ensures Consistent(e')
  {
  }

  /** The invariant seen from agent i: both snakes well tagged, the bodies
      apart in either order, and the sole fruit. */
  lemma ConsistentFromAgent(e: Env, i: AgentId)
    requires Wf(e)
    requires SnakeOk(e.field, e.snakes[i], i) && SnakeOk(e.field, e.snakes[Other(i)], Other(i))
    requires Apart(e.snakes[i].body, e.snakes[Other(i)].body)
    requires e.fruit.Some? && SoleFruit(e.field, e.fruit.value)
    ensures Consistent(e)
  {
    if i == 1 {
      assert Apart(e.snakes[0].body, e.snakes[1].body);
    }
  }

  /** The bodies are apart, read from agent i. */
  lemma ApartFromAgent(e: Env, i: AgentId)
    requires Consistent(e)
    ensures Apart(e.snakes[i].body, e.snakes[Other(i)].body)
  {
    if i == 1 {
      assert Apart(e.snakes[0].body, e.snakes[1].body);
    }
  }

  /** Adding a head cell that lies off another body keeps two bodies apart,
      with or without the tail dropped. */
  lemma NewHeadStaysApart(nh: Point, body: seq<Point>, other: seq<Point>)
    requires |body| > 0 && nh !in other && Apart(body, other)
    ensures Apart([nh] + body, other)
    ensures Apart([nh] + body[..|body| - 1], other)
  {
    var g := [nh] + body;
    forall j, k | 0 <= j < |g| && 0 <= k < |other|
      ensures g[j] != other[k]
    {
      if j > 0 {
        assert g[j] == body[j - 1];
      }
    }
    var m := [nh] + body[..|body| - 1];
    forall j, k | 0 <= j < |m| && 0 <= k < |other|
      ensures m[j] != other[k]
    {
      if j > 0 {
        assert m[j] == body[j - 1];
      }
    }
  }

  /** The footprint of a move, on the grid alone: if the new head was
      tagged as head and lies off the other snake, the moved body carries
      snake i's tags and the other body keeps its tags. */
  lemma {:induction false} MoveFootprintKeepsTags(f: Field, body: seq<Point>, other: seq<Point>,
                                                 i: AgentId, nh: Point)
    requires Square(f) && |body| > 0 && OnField(f, body) && OnField(f, other) && InBounds(f, nh)
    requires Tagged(f, body, i) && Tagged(f, other, Other(i)) && NoRepeats(body) && Apart(body, other)
    requires nh != body[0] && nh !in other
    requires Get(UpdateSnakeFootprint(f, body[0], Some(body[|body| - 1]), nh, i), nh) == SnakeHead(i)
    ensures var g := UpdateSnakeFootprint(f, body[0], Some(body[|body| - 1]), nh, i);
            var moved := [nh] + body[..|body| - 1];
            && OnField(g, moved) && OnField(g, other)
            && Tagged(g, moved, i) && Tagged(g, other, Other(i)) && NoRepeats(moved)
  {
    var n := |body|;
    var oh, ot := body[0], body[n - 1];
    var g := UpdateSnakeFootprint(f, oh, Some(ot), nh, i);
    var moved := [nh] + body[..n - 1];
    assert Get(f, oh) == SnakeHead(i);
    assert Get(f, ot) == if n == 1 then SnakeHead(i) else SnakeBody(i);
    // Had the new head entered the body it leaves behind, that cell would
    // have stayed a body cell.
    assert forall k :: 0 < k < n - 1 ==> Get(f, body[k]) == SnakeBody(i) && body[k] != ot;
    assert forall k :: 0 <= k < n - 1 ==> body[k] != nh;
    forall k | 0 <= k < n
      ensures Get(g, moved[k]) == if k == 0 then SnakeHead(i) else SnakeBody(i)
    {
      if k == 1 {
        assert moved[1] == oh && oh != ot;
      } else if k > 1 {
        var q := body[k - 1];
        assert moved[k] == q && q != oh && q != ot && q != nh;
      }
    }
    forall k | 0 <= k < |other|
      ensures Get(g, other[k]) == Get(f, other[k])
    {
      assert other[k] != oh && other[k] != ot && other[k] != nh;
    }
  }

  /** A footprint write creates no fruit, so a fruit it does not touch stays
      the only one. */
  lemma MoveFootprintKeepsFruit(f: Field, oh: Point, ot: Point, nh: Point, i: AgentId, fruit: Point)
    requires Square(f) && InBounds(f, oh) && InBounds(f, ot) && InBounds(f, nh)
    requires SoleFruit(f, fruit) && fruit != oh && fruit != ot && fruit != nh
    ensures SoleFruit(UpdateSnakeFootprint(f, oh, Some(ot), nh, i), fruit)
  {
    var g := UpdateSnakeFootprint(f, oh, Some(ot), nh, i);
    forall p | InBounds(g, p)
      ensures Get(g, p) == Fruit <==> p == fruit
    {
      if p != oh && p != ot && p != nh {
        assert Get(g, p) == Get(f, p);
      }
    }
  }

  /** What a surviving slide leaves behind: the body shifted onto the new
      head, the grid rewritten by the footprint, and a head cell that holds
      the snake's own head because anything else there would be fatal. */
  lemma SlideSurvivor(e: Env, i: AgentId)
    requires Consistent(e) && InBounds(e.field, PeekNextMove(e.snakes[i]))
    requires !Eats(e, i)
    requires IsAlive(Slide(e, i).env, i)
    ensures var s := e.snakes[i];
            var nh := PeekNextMove(s);
            var e' := Slide(e, i).env;
            && e'.field == UpdateSnakeFootprint(e.field, s.body[0], Some(s.body[|s.body| - 1]), nh, i)
            && |e'.snakes| == 2 && e'.snakes[Other(i)] == e.snakes[Other(i)]
            && e'.snakes[i].body == [nh] + s.body[..|s.body| - 1]
            && e'.fruit == e.fruit
            && Get(e'.field, nh) == SnakeHead(i)
            && nh !in e.snakes[Other(i)].body
  {
    var e' := Slide(e, i).env;
    assert e'.snakes[i].body[0] == PeekNextMove(e.snakes[i]);
  }

  /** A moving snake whose turn leaves it alive keeps the invariant. */
  lemma SlideKeepsConsistent(e: Env, i: AgentId)
    requires Consistent(e) && InBounds(e.field, PeekNextMove(e.snakes[i]))
    requires !Eats(e, i)
    requires IsAlive(Slide(e, i).env, i)
    ensures Consistent(Slide(e, i).env)
  {
    var s := e.snakes[i];
    var o := e.snakes[Other(i)];
    var nh := PeekNextMove(s);
    SlideSurvivor(e, i);
    var e' := Slide(e, i).env;
    var m := e'.snakes[i];
    MoveFootprintKeepsTags(e.field, s.body, o.body, i, nh);
    assert Get(e.field, s.body[|s.body| - 1]) != Fruit;
    MoveFootprintKeepsFruit(e.field, s.body[0], s.body[|s.body| - 1], nh, i, e.fruit.value);
    ApartFromAgent(e, i);
    NewHeadStaysApart(nh, s.body, o.body);
    ConsistentFromAgent(e', i);
  }

  /** A cell that holds no tag of snake i lies off its body. */
  lemma UntaggedOffSnake(f: Field, body: seq<Point>, i: AgentId, p: Point)
    requires Square(f) && OnField(f, body) && Tagged(f, body, i) && InBounds(f, p)
    requires !Get(f, p).SnakeHead? && !Get(f, p).SnakeBody?
    ensures p !in body
  {
  }

  /** The footprint of a meal, on the grid alone: the fruit cell becomes the
      head, the grown body carries snake i's tags and the other body keeps
      its tags. */
  lemma {:induction false} GrowFootprintKeepsTags(f: Field, body: seq<Point>, other: seq<Point>,
                                                 i: AgentId, nh: Point, pick: Point)
    requires Square(f) && |body| > 0 && OnField(f, body) && OnField(f, other)
    requires InBounds(f, nh) && InBounds(f, pick)
    requires Tagged(f, body, i) && Tagged(f, other, Other(i)) && NoRepeats(body)
    requires Get(f, nh) == Fruit && Get(f, pick) == Empty
    requires pick !in body && pick !in other && nh !in body && nh !in other
    ensures var g := UpdateSnakeFootprint(Put(f, pick, Fruit), body[0], None, nh, i);
            var grown := [nh] + body;
            && OnField(g, grown) && OnField(g, other)
            && Get(g, nh) == SnakeHead(i)
            && Tagged(g, grown, i) && Tagged(g, other, Other(i)) && NoRepeats(grown)
  {
    var oh := body[0];
    var f1 := Put(f, pick, Fruit);
    var g := UpdateSnakeFootprint(f1, oh, None, nh, i);
    var grown := [nh] + body;
    assert forall k :: 0 <= k < |other| ==> other[k] != oh;
    assert Get(f1, nh) == Fruit;
    forall k | 1 < k < |grown|
      ensures Get(g, grown[k]) == SnakeBody(i)
    {
      var q := body[k - 1];
      assert grown[k] == q && q != oh && q != nh && q != pick;
      assert Get(g, q) == Get(f1, q) == Get(f, q);
    }
    forall k | 0 <= k < |other|
      ensures Get(g, other[k]) == Get(f, other[k])
    {
      assert Get(f1, other[k]) == Get(f, other[k]);
    }
  }

  /** After a meal the drawn cell is the only fruit: the eaten fruit cell
      became the head and the footprint creates no other fruit. */
  lemma GrowFootprintMovesFruit(f: Field, oh: Point, nh: Point, i: AgentId, pick: Point)
    requires Square(f) && InBounds(f, oh) && InBounds(f, nh) && InBounds(f, pick)
    requires SoleFruit(f, nh) && Get(f, pick) == Empty && oh != nh && pick != oh
    ensures SoleFruit(UpdateSnakeFootprint(Put(f, pick, Fruit), oh, None, nh, i), pick)
  {
    var f1 := Put(f, pick, Fruit);
    var g := UpdateSnakeFootprint(f1, oh, None, nh, i);
    assert pick != nh && Get(f1, nh) == Fruit;
    forall p | InBounds(g, p)
      ensures Get(g, p) == Fruit <==> p == pick
    {
      if p != oh && p != nh {
        assert Get(g, p) == Get(f1, p);
        if p != pick {
          assert Get(f1, p) == Get(f, p);
        }
      }
    }
  }

  /** An eating snake always survives its turn, the new fruit lies off both
      snakes and away from the old fruit, and the invariant holds after. */
  lemma FeedKeepsConsistent(e: Env, i: AgentId, pick: Point)
    requires Consistent(e) && InBounds(e.field, PeekNextMove(e.snakes[i]))
    requires Eats(e, i) && pick in e.field.empty
    ensures pick != e.fruit.value
    ensures pick !in e.snakes[0].body && pick !in e.snakes[1].body
    ensures IsAlive(Feed(e, i, pick).env, i)
    ensures Consistent(Feed(e, i, pick).env)
  {
    var s := e.snakes[i];
    var o := e.snakes[Other(i)];
    var nh := PeekNextMove(s);
    var e' := Feed(e, i, pick).env;
    var m := e'.snakes[i];
    assert m.body == [nh] + s.body;
    UntaggedOffSnake(e.field, s.body, i, pick);
    UntaggedOffSnake(e.field, o.body, Other(i), pick);
    UntaggedOffSnake(e.field, s.body, i, nh);
    UntaggedOffSnake(e.field, o.body, Other(i), nh);
    GrowFootprintKeepsTags(e.field, s.body, o.body, i, nh, pick);
    GrowFootprintMovesFruit(e.field, s.body[0], nh, i, pick);
    ApartFromAgent(e, i);
    NewHeadStaysApart(nh, s.body, o.body);
    assert e'.snakes[Other(i)] == o && e'.fruit == Some(pick);
    ConsistentFromAgent(e', i);
  }

  /** An agent turn that leaves the snake alive keeps the invariant. */
  lemma AgentStepKeepsConsistent(e: Env, i: AgentId, pick: Point)
    requires Consistent(e) && InBounds(e.field, PeekNextMove(e.snakes[i]))
    requires Eats(e, i) ==> pick in e.field.empty
    requires IsAlive(Advance(e, i, pick).env, i)
    ensures Consistent(AgentStep(e, i, pick).env)
  {
    var a := Advance(e, i, pick);
    if Eats(e, i) {
      FeedKeepsConsistent(e, i, pick);
    } else {
      SlideKeepsConsistent(e, i);
    }
    ConsistentIgnoresCounters(a.env, AgentStep(e, i, pick).env);
  }

  /** A tick whose last result is not terminal kept both snakes alive, so it
      keeps the invariant: in particular the one fruit is never on a snake. */
  lemma TimestepKeepsConsistent(e: Env, pick0: Point, pick1: Point)
    requires CanStep(e) && FairPicks(e, pick0, pick1) && Consistent(e)
    requires Timestep(e, pick0, pick1).Success?
    requires !Timestep(e, pick0, pick1).value.results[1].isEpisodeEnd
    ensures Consistent(Timestep(e, pick0, pick1).value.env)
  {
    var e1 := CountTick(e);
    ConsistentIgnoresCounters(e, e1);
    var o0 := AgentStep(e1, 0, pick0);
    AgentStepKeepsConsistent(e1, 0, pick0);
    AgentStepKeepsConsistent(o0.env, 1, pick1);
  }
}
