/** Whole-tick consequences of the rules: a fresh episode satisfies the
    invariant, heads entering free cells advance, eating grows, a head
    driven into a wall is fatal, two heads aimed at one empty cell kill only
    the second mover, and the step-limit branch of `timestep` as the program
    writes it. */
module Scenarios {
  import opened Errors
  import opened Geometry
  import opened Cells
  import opened Fields
  import opened Levels
  import opened Snakes
  import opened Environment
  import opened Invariants

  /** The level map has no fruit marker `O`. */
  ghost predicate NoFruitMarker(level: seq<string>) {
    forall y, x :: 0 <= y < |level| && 0 <= x < |level[y]| ==> level[y][x] != 'O'
  }

  /** A loaded level without fruit markers holds no FRUIT cell. */
  lemma NoFruitAfterLoad(level: seq<string>)
    requires SquareMap(level) && NoFruitMarker(level) && CreateLevel(level).Success?
    ensures forall p :: InBounds(CreateLevel(level).value, p) ==> Get(CreateLevel(level).value, p) != Fruit
  {
    var f := CreateLevel(level).value;
    forall p | InBounds(f, p)
      ensures Get(f, p) != Fruit
    {
      var ch := level[p.y][p.x];
      assert CellOfSymbol(ch) == Some(Get(f, p));
      SymbolRoundTrip(ch);
    }
  }

  /** What `Setup` builds: the two snakes of the configured length, started
      at the first head markers in row-major order, stamped onto the loaded
      level. */
  lemma SetupPlacesNewSnakes(config: Config)
    requires SquareMap(config.level) && Setup(config).Success?
    ensures CreateLevel(config.level).Success?
    ensures var f := CreateLevel(config.level).value;
            && FindSnakeHead(f, SnakeHead(0)).Success? && FindSnakeHead(f, SnakeHead(1)).Success?
            && var s0 := NewSnake(FindSnakeHead(f, SnakeHead(0)).value, config.initialSnakeLength);
               var s1 := NewSnake(FindSnakeHead(f, SnakeHead(1)).value, config.initialSnakeLength);
               && |s0.body| > 0 && |s1.body| > 0 && OnField(f, s0.body) && OnField(f, s1.body)
               && Setup(config).value == Staged(PlaceSnakes(f, s0.body, s1.body), [s0, s1])
  {
  }

  /** Stamping two bodies that do not meet and repeat no cell onto a grid
      without fruit tags each body with its owner and leaves no fruit. */
  lemma {:induction false} PlaceApartSnakes(f: Field, b0: seq<Point>, b1: seq<Point>)
    requires Square(f) && |b0| > 0 && |b1| > 0 && OnField(f, b0) && OnField(f, b1)
    requires NoRepeats(b0) && NoRepeats(b1) && Apart(b0, b1)
    requires forall p :: InBounds(f, p) ==> Get(f, p) != Fruit
    ensures var g := PlaceSnakes(f, b0, b1);
            && OnField(g, b0) && OnField(g, b1) && Tagged(g, b0, 0) && Tagged(g, b1, 1)
            && forall p :: InBounds(g, p) ==> Get(g, p) != Fruit
  {
    var g := PlaceSnakes(f, b0, b1);
    assert b0[0] !in b0[1..] && b1[0] !in b1[1..];
    forall k | 0 <= k < |b0|
      ensures b0[k] !in b1
    {
      assert forall j :: 0 <= j < |b1| ==> b0[k] != b1[j];
    }
    forall p | InBounds(g, p)
      ensures Get(g, p) != Fruit
    {
      if p !in b0 && p !in b1 {
        assert Get(g, p) == Get(f, p);
      }
    }
  }

  /** The staged field of a level without fruit markers, when the two
      starting columns do not meet: each snake carries its own tags, no body
      repeats a cell, and there is no fruit yet. */
  lemma SetupTagsSnakes(config: Config)
    requires SquareMap(config.level) && NoFruitMarker(config.level) && Setup(config).Success?
    requires Apart(Setup(config).value.snakes[0].body, Setup(config).value.snakes[1].body)
    ensures var st := Setup(config).value;
            && SnakeOk(st.field, st.snakes[0], 0) && SnakeOk(st.field, st.snakes[1], 1)
            && forall p :: InBounds(st.field, p) ==> Get(st.field, p) != Fruit
  {
    SetupPlacesNewSnakes(config);
    NoFruitAfterLoad(config.level);
    var st := Setup(config).value;
    PlaceApartSnakes(CreateLevel(config.level).value, st.snakes[0].body, st.snakes[1].body);
  }

  /** A new episode on a level without fruit markers, whose two snakes start
      apart, satisfies the invariant: the tags match the bodies and the
      drawn fruit is the only fruit. */
  lemma NewEpisodeConsistent(config: Config, pick: Point)
    requires SquareMap(config.level) && NoFruitMarker(config.level) && Setup(config).Success?
    requires Apart(Setup(config).value.snakes[0].body, Setup(config).value.snakes[1].body)
    requires pick in Setup(config).value.field.empty
    ensures NewEpisode(config, pick).Success?
    ensures Consistent(NewEpisode(config, pick).value.env)
  {
    var st := Setup(config).value;
    SetupTagsSnakes(config);
    var e := Begin(config, st, pick).value.env;
    UntaggedOffSnake(st.field, st.snakes[0].body, 0, pick);
    UntaggedOffSnake(st.field, st.snakes[1].body, 1, pick);
    assert Tagged(e.field, e.snakes[0].body, 0);
    assert Tagged(e.field, e.snakes[1].body, 1);
    forall p | InBounds(e.field, p)
      ensures Get(e.field, p) == Fruit <==> p == pick
    {
      if p != pick {
        assert Get(e.field, p) == Get(st.field, p);
      }
    }
  }

  /** A head entering a cell that carries no snake tag and is not the
      fruit: the move branch runs, the cell keeps its type unless it was
      free, and the bodies stay apart. */
  lemma SlideOntoUntagged(e: Env, i: AgentId)
    requires Consistent(e) && InBounds(e.field, PeekNextMove(e.snakes[i]))
    requires Get(e.field, PeekNextMove(e.snakes[i])) in {Empty, Wall}
    ensures !Eats(e, i)
    ensures var a := Slide(e, i).env;
            && Get(a.field, PeekNextMove(e.snakes[i])) ==
                 (if Get(e.field, PeekNextMove(e.snakes[i])) == Wall then Wall else SnakeHead(i))
            && Apart(a.snakes[i].body, a.snakes[Other(i)].body)
  {
    var s := e.snakes[i];
    var o := e.snakes[Other(i)];
    var nh := PeekNextMove(s);
    UntaggedOffSnake(e.field, s.body, i, nh);
    UntaggedOffSnake(e.field, o.body, Other(i), nh);
    assert Tail(s) in s.body;
    ApartFromAgent(e, i);
    NewHeadStaysApart(nh, s.body, o.body);
  }

  /** A snake whose next cell is a wall dies on it: the wall check fires and
      nothing later overrides it, the agent gets the death reward and the
      episode ends. */
  lemma WallIsFatal(e: Env, i: AgentId, pick: Point)
    requires Consistent(e) && InBounds(e.field, PeekNextMove(e.snakes[i]))
    requires Eats(e, i) ==> pick in e.field.empty
    requires Get(e.field, PeekNextMove(e.snakes[i])) == Wall
    ensures var o := AgentStep(e, i, pick);
            && o.reason == (if e.timestepIndex < e.config.maxStepLimit then Some(HitWall) else Some(TimestepLimitExceeded))
            && o.result.reward == e.config.rewards.died
            && o.result.isEpisodeEnd
  {
    SlideOntoUntagged(e, i);
    var a := Advance(e, i, pick).env;
    assert a == Slide(e, i).env;
    assert HeadCell(a, i) == Wall;
    assert !SharesCell(a.snakes[i].body, a.snakes[Other(i)].body);
  }

  /** An agent whose head enters an empty cell slides there and survives
      with the step reward, its head on that cell and the fruit unmoved. */
  lemma EnterEmptyCell(e: Env, i: AgentId, pick: Point)
    requires Consistent(e) && InBounds(e.field, PeekNextMove(e.snakes[i]))
    requires Get(e.field, PeekNextMove(e.snakes[i])) == Empty
    ensures !Eats(e, i) && IsAlive(Advance(e, i, pick).env, i)
    ensures var o := AgentStep(e, i, pick);
            && o.reason == (if e.timestepIndex < e.config.maxStepLimit then None else Some(TimestepLimitExceeded))
            && o.result.reward == e.config.rewards.timestep
            && o.result.isEpisodeEnd == (e.isGameOver || e.timestepIndex >= e.config.maxStepLimit)
            && o.env.snakes[i].body[0] == PeekNextMove(e.snakes[i])
            && |o.env.snakes[i].body| == |e.snakes[i].body|
            && o.env.fruit == e.fruit
  {
    SlideOntoUntagged(e, i);
    var a := Advance(e, i, pick).env;
    assert a == Slide(e, i).env;
    assert IsAlive(a, i);
  }

  /** An agent whose head enters the fruit cell eats it: it survives, grows
      by one, earns the fruit reward per unit of its new length, and the
      new fruit lies on a cell that was empty, hence elsewhere. */
  lemma EatingGrows(e: Env, i: AgentId, pick: Point)
    requires Consistent(e) && InBounds(e.field, PeekNextMove(e.snakes[i]))
    requires Eats(e, i) && pick in e.field.empty
    ensures var o := AgentStep(e, i, pick);
            && o.reason == (if e.timestepIndex < e.config.maxStepLimit then None else Some(TimestepLimitExceeded))
            && |o.env.snakes[i].body| == |e.snakes[i].body| + 1
            && o.result.reward == e.config.rewards.ateFruit * (|e.snakes[i].body| + 1)
            && o.env.fruit == Some(pick) && pick != e.fruit.value
            && Consistent(o.env)
  {
    FeedKeepsConsistent(e, i, pick);
    AgentStepKeepsConsistent(e, i, pick);
  }

  /** Agent 1 entering the cell agent 0's head already holds shares a cell
      with agent 0's body, so it dies with the other-body reason. */
  lemma SecondMoverCollides(e: Env, pick: Point)
    requires Wf(e) && InBounds(e.field, PeekNextMove(e.snakes[1]))
    requires Eats(e, 1) ==> pick in e.field.empty
    requires PeekNextMove(e.snakes[1]) == e.snakes[0].body[0]
    ensures var o := AgentStep(e, 1, pick);
            && o.reason == (if e.timestepIndex < e.config.maxStepLimit then Some(HitOtherBody) else Some(TimestepLimitExceeded))
            && o.result.reward == e.config.rewards.died
            && o.result.isEpisodeEnd
  {
    var a := Advance(e, 1, pick).env;
    assert a.snakes[1].body[0] == a.snakes[0].body[0];
    assert SharesCell(a.snakes[1].body, a.snakes[0].body);
  }

  /** Both heads aimed at one empty cell. Agent 0 moves first into a free
      cell and survives with the step reward; agent 1 then enters the cell
      agent 0's head holds, the bodies share it, and agent 1 dies with the
      other-body reason. Agent 0's result is terminal only if the episode
      was already ending. */
  lemma SameTargetCell(e: Env, pick0: Point, pick1: Point)
    requires CanStep(e) && FairPicks(e, pick0, pick1) && Consistent(e)
    requires PeekNextMove(e.snakes[0]) == PeekNextMove(e.snakes[1])
    requires Get(e.field, PeekNextMove(e.snakes[0])) == Empty
    ensures Timestep(e, pick0, pick1).Success?
    ensures var t := Timestep(e, pick0, pick1).value;
            && t.reasons[0] == (if e.timestepIndex + 1 < e.config.maxStepLimit then None else Some(TimestepLimitExceeded))
            && t.results[0].reward == e.config.rewards.timestep
            && t.results[0].isEpisodeEnd == (e.isGameOver || e.timestepIndex + 1 >= e.config.maxStepLimit)
            && t.reasons[1] == (if e.timestepIndex + 1 < e.config.maxStepLimit then Some(HitOtherBody) else Some(TimestepLimitExceeded))
            && t.results[1].reward == e.config.rewards.died
            && t.results[1].isEpisodeEnd
  {
    var e1 := CountTick(e);
    ConsistentIgnoresCounters(e, e1);
    EnterEmptyCell(e1, 0, pick0);
    var mid := AgentStep(e1, 0, pick0).env;
    assert Get(e.field, e.fruit.value) == Fruit;
    assert !Eats(mid, 1);
    SecondMoverCollides(mid, pick1);
    TimestepIsTwoTurns(e, pick0, pick1);
  }

  /** After agent 0 slides onto an empty cell, a different cell that was
      empty at the start of the tick is still empty. */
  lemma OtherEmptyCellStays(e: Env, pick: Point, q: Point)
    requires Consistent(e) && InBounds(e.field, PeekNextMove(e.snakes[0])) && InBounds(e.field, q)
    requires Get(e.field, PeekNextMove(e.snakes[0])) == Empty
    requires Get(e.field, q) == Empty && q != PeekNextMove(e.snakes[0])
    ensures Get(AgentStep(e, 0, pick).env.field, q) == Empty
  {
    SlideOntoUntagged(e, 0);
    var s := e.snakes[0];
    UntaggedOffSnake(e.field, s.body, 0, q);
    var a := Advance(e, 0, pick).env;
    assert a == Slide(e, 0).env;
    assert IsAlive(a, 0);
    assert q != Head(s);
  }

  /** Two heads aimed at two different empty cells: both snakes advance,
      neither dies, each earns the step reward, and the results are terminal
      only when the episode was already ending or reaches its step limit. */
  lemma BothAdvance(e: Env, pick0: Point, pick1: Point)
    requires CanStep(e) && FairPicks(e, pick0, pick1) && Consistent(e)
    requires PeekNextMove(e.snakes[0]) != PeekNextMove(e.snakes[1])
    requires Get(e.field, PeekNextMove(e.snakes[0])) == Empty
    requires Get(e.field, PeekNextMove(e.snakes[1])) == Empty
    ensures Timestep(e, pick0, pick1).Success?
    ensures var t := Timestep(e, pick0, pick1).value;
            && (e.timestepIndex + 1 < e.config.maxStepLimit ==> t.reasons[0] == None && t.reasons[1] == None)
            && (e.timestepIndex + 1 >= e.config.maxStepLimit ==>
                  t.reasons[0] == Some(TimestepLimitExceeded) && t.reasons[1] == Some(TimestepLimitExceeded))
            && t.results[0].reward == e.config.rewards.timestep
            && t.results[1].reward == e.config.rewards.timestep
            && t.env.snakes[0].body[0] == PeekNextMove(e.snakes[0])
            && t.env.snakes[1].body[0] == PeekNextMove(e.snakes[1])
            && |t.env.snakes[0].body| == |e.snakes[0].body|
            && |t.env.snakes[1].body| == |e.snakes[1].body|
            && t.results[1].isEpisodeEnd == (e.isGameOver || e.timestepIndex + 1 >= e.config.maxStepLimit)
  {
    var e1 := CountTick(e);
    ConsistentIgnoresCounters(e, e1);
    EnterEmptyCell(e1, 0, pick0);
    AgentStepKeepsConsistent(e1, 0, pick0);
    OtherEmptyCellStays(e1, pick0, PeekNextMove(e.snakes[1]));
    var mid := AgentStep(e1, 0, pick0).env;
    assert mid.snakes[1] == e.snakes[1];
    EnterEmptyCell(mid, 1, pick1);
    TimestepIsTwoTurns(e, pick0, pick1);
  }

  /** The tick as written. Agent 0's turn runs first, so a fruit draw
      with no empty cell raises IndexError before anything else; then, on
      reaching the step limit, `timestep` assigns a termination reason to the
      list of per-agent statistics, not to one of its elements, and raises
      AttributeError; no result is returned. Below the limit it is the tick
      `Timestep` describes. */
  function TimestepAsWritten(e: Env, pick0: Point, pick1: Point): (r: Result<Tick>)
    requires CanStep(e) && FairPicks(e, pick0, pick1)
    ensures e.timestepIndex + 1 >= e.config.maxStepLimit ==> r.Failure?
    ensures r == Failure(AttributeOnStatsList) <==>
      !DrawFails(e, 0) && e.timestepIndex + 1 >= e.config.maxStepLimit
    ensures e.timestepIndex + 1 < e.config.maxStepLimit ==> r == Timestep(e, pick0, pick1)
  {
    if DrawFails(e, 0) then Failure(NoEmptyCell)
    else if e.timestepIndex + 1 >= e.config.maxStepLimit then Failure(AttributeOnStatsList)
    else Timestep(e, pick0, pick1)
  }

  /** The limit is never reported as written: with the default limit of
      1000, the 1000th tick raises where the corrected tick returns two
      terminal results and records the step-limit reason for both agents. */
  lemma StepLimitNeverReported(e: Env, pick0: Point, pick1: Point)
    requires CanStep(e) && FairPicks(e, pick0, pick1) && !DrawFails(e, 0)
    requires e.config.maxStepLimit == DefaultMaxStepLimit && e.timestepIndex == 999
    ensures TimestepAsWritten(e, pick0, pick1) == Failure(AttributeOnStatsList)
    ensures Timestep(e, pick0, pick1).Success? ==>
      && Timestep(e, pick0, pick1).value.results[0].isEpisodeEnd
      && Timestep(e, pick0, pick1).value.results[1].isEpisodeEnd
      && Timestep(e, pick0, pick1).value.reasons == [Some(TimestepLimitExceeded), Some(TimestepLimitExceeded)]
  {
  }
}
