/** The two-snake game engine (`Environment` and `TimestepResult` in
    snakeai/gameplay/environment.py): episode setup, action choice and the
    per-tick transition, which resolves agent 0 completely before agent 1.

    The program draws every new fruit cell at random from the field's
    empty-cell set. Here the drawn cell is a parameter (`pick`), and the
    caller must supply a member of the empty-cell set at the moment of the
    draw, which is what the random choice guarantees. */
module Environment {
  import opened Errors
  import opened Geometry
  import opened Cells
  import opened Fields
  import opened Levels
  import opened Snakes

  /** The three reward scalars: per unit of length when a fruit is eaten,
      per ordinary step, and on death. */
  datatype Rewards = Rewards(ateFruit: int, timestep: int, died: int)

  const DefaultMaxStepLimit := 1000

  /** A level configuration: the level map, the initial snake length, the
      rewards and the step limit. */
  datatype Config = Config(level: seq<string>, initialSnakeLength: nat, rewards: Rewards, maxStepLimit: int)

  /** The configuration as the constructor reads it: a missing step limit
      defaults to 1000. */
  function MakeConfig(level: seq<string>, initialSnakeLength: nat, rewards: Rewards,
                      maxStepLimit: Option<int>): (c: Config)
    ensures maxStepLimit.None? ==> c.maxStepLimit == DefaultMaxStepLimit
    ensures maxStepLimit.Some? ==> c.maxStepLimit == maxStepLimit.value
    ensures c.level == level && c.initialSnakeLength == initialSnakeLength && c.rewards == rewards
  {
    Config(level, initialSnakeLength, rewards,
           match maxStepLimit case Some(n) => n case None => DefaultMaxStepLimit)
  }

  /** The engine's state during an episode. `fruit` is None only before the
      first fruit is generated. */
  datatype Env = Env(config: Config, field: Field, snakes: seq<Snake>, fruit: Option<Point>,
                     timestepIndex: nat, isGameOver: bool)

  /** What an agent receives after each tick. */
  datatype TimestepResult = TimestepResult(observation: seq<seq<int>>, reward: int, isEpisodeEnd: bool)

  /** The termination reasons the statistics record: the three causes of
      death, and the step limit. */
  datatype Reason = HitWall | HitOwnBody | HitOtherBody | TimestepLimitExceeded

  predicate Placed(f: Field, s: Snake) {
    |s.body| > 0 && OnField(f, s.body)
  }

  /** The shape every state of an episode has: a square field whose
      empty-cell set is exact, and two non-empty snakes lying on it. */
  ghost predicate Wf(e: Env) {
    && EmptyInv(e.field)
    && |e.snakes| == 2
    && Placed(e.field, e.snakes[0])
    && Placed(e.field, e.snakes[1])
  }

  /** `generate_fruit` with a randomly drawn cell: the drawn cell leaves the
      empty-cell set, holds FRUIT and becomes the fruit; nothing else changes. */
  function GenerateFruit(e: Env, pick: Point): (r: Env)
    requires EmptyInv(e.field) && pick in e.field.empty
    ensures r == e.(field := r.field, fruit := Some(pick))
    ensures EmptyInv(r.field) && |r.field.cells| == |e.field.cells|
    ensures r.field.empty == e.field.empty - {pick}
    ensures Get(r.field, pick) == Fruit
    ensures forall q :: InBounds(e.field, q) && q != pick ==> Get(r.field, q) == Get(e.field, q)
  {
    e.(field := Put(e.field, pick, Fruit), fruit := Some(pick))
  }

  /** The snakes and field that `new_episode` builds before the fruit. */
  datatype Staged = Staged(field: Field, snakes: seq<Snake>)

  ghost predicate StagedOk(st: Staged) {
    && EmptyInv(st.field) && |st.snakes| == 2
    && Placed(st.field, st.snakes[0]) && Placed(st.field, st.snakes[1])
  }

  /** `place_snake` for two freshly built snakes: it reads the head of an
      empty snake, or writes below the last row, with an IndexError. */
  function LayOut(f: Field, s0: Snake, s1: Snake): (r: Result<Staged>)
    requires EmptyInv(f)
    ensures r.Success? <==> |s0.body| > 0 && |s1.body| > 0 && OnField(f, s0.body) && OnField(f, s1.body)
    ensures r.Failure? ==> r.error == if |s0.body| == 0 || |s1.body| == 0 then EmptySnake else OffField
    ensures r.Success? ==>
      && StagedOk(r.value) && r.value.snakes == [s0, s1]
      && r.value.field == PlaceSnakes(f, s0.body, s1.body)
  {
    if |s0.body| == 0 || |s1.body| == 0 then Failure(EmptySnake)
    else if !OnField(f, s0.body) || !OnField(f, s1.body) then Failure(OffField)
    else
      var g := PlaceSnakes(f, s0.body, s1.body);
      assert OnField(g, s0.body) && OnField(g, s1.body);
      Success(Staged(g, [s0, s1]))
  }

  /** `new_episode` up to the fruit: load the level, find the two head
      markers, lay out both snakes of the configured length from them and
      stamp their bodies. */
  function Setup(config: Config): (r: Result<Staged>)
    requires SquareMap(config.level)
    ensures r.Success? ==> StagedOk(r.value) && |r.value.field.cells| == |config.level|
  {
    var f :- CreateLevel(config.level);
    var h0 :- FindSnakeHead(f, SnakeHead(0));
    var h1 :- FindSnakeHead(f, SnakeHead(1));
    LayOut(f, NewSnake(h0, config.initialSnakeLength), NewSnake(h1, config.initialSnakeLength))
  }

  /** Setup succeeds exactly when the level loads, both head markers are
      found and both snakes fit on the field; a failure is the first of
      these steps' errors. */
  lemma SetupSucceedsExactly(config: Config)
    requires SquareMap(config.level)
    ensures Setup(config).Success? <==>
      && CreateLevel(config.level).Success?
      && var f := CreateLevel(config.level).value;
         && FindSnakeHead(f, SnakeHead(0)).Success?
         && FindSnakeHead(f, SnakeHead(1)).Success?
         && LayOut(f, NewSnake(FindSnakeHead(f, SnakeHead(0)).value, config.initialSnakeLength),
                   NewSnake(FindSnakeHead(f, SnakeHead(1)).value, config.initialSnakeLength)).Success?
    ensures CreateLevel(config.level).Failure? ==> Setup(config) == Failure(CreateLevel(config.level).error)
    ensures CreateLevel(config.level).Success? ==>
      var f := CreateLevel(config.level).value;
      && (FindSnakeHead(f, SnakeHead(0)).Failure? ==>
            Setup(config) == Failure(FindSnakeHead(f, SnakeHead(0)).error))
      && (FindSnakeHead(f, SnakeHead(0)).Success? && FindSnakeHead(f, SnakeHead(1)).Failure? ==>
            Setup(config) == Failure(FindSnakeHead(f, SnakeHead(1)).error))
  {
  }

  /** A started episode: the state and the first result of each agent. */
  datatype Started = Started(env: Env, results: seq<TimestepResult>)

  /** The last part of `new_episode`: the fruit, the reset counter and flag,
      and the two initial results. */
  function Begin(config: Config, staged: Staged, pick: Point): (r: Result<Started>)
    requires StagedOk(staged)
    requires staged.field.empty != {} ==> pick in staged.field.empty
    ensures r.Failure? <==> staged.field.empty == {}
    ensures r.Failure? ==> r.error == NoEmptyCell
    ensures r.Success? ==>
      var e := r.value.env;
      && Wf(e) && e.config == config && e.timestepIndex == 0 && !e.isGameOver
      && e.snakes == staged.snakes && |e.field.cells| == |staged.field.cells|
      && e.fruit == Some(pick) && pick in staged.field.empty && Get(e.field, pick) == Fruit
      && e.field.empty == staged.field.empty - {pick}
      && (forall q :: InBounds(e.field, q) && q != pick ==> Get(e.field, q) == Get(staged.field, q))
      && |r.value.results| == 2
      && r.value.results[0] == r.value.results[1] == TimestepResult(Observation(e.field), 0, false)
  {
    if staged.field.empty == {} then Failure(NoEmptyCell)
    else
      var e := GenerateFruit(Env(config, staged.field, staged.snakes, None, 0, false), pick);
      assert Placed(e.field, e.snakes[0]) && Placed(e.field, e.snakes[1]);
      var first := TimestepResult(Observation(e.field), 0, e.isGameOver);
      Success(Started(e, [first, first]))
  }

  /** `new_episode`: fails where setup fails or when no empty cell is left
      for the fruit; otherwise the counter is 0, the game is not over, both
      snakes start at their head markers, the one fruit lies on a cell that
      was empty, and both agents get reward 0 and a non-terminal result. */
  function NewEpisode(config: Config, pick: Point): (r: Result<Started>)
    requires SquareMap(config.level)
    requires Setup(config).Success? && Setup(config).value.field.empty != {} ==>
               pick in Setup(config).value.field.empty
    ensures Setup(config).Failure? ==> r == Failure(Setup(config).error)
    ensures Setup(config).Success? && Setup(config).value.field.empty == {} ==> r == Failure(NoEmptyCell)
    ensures Setup(config).Success? && Setup(config).value.field.empty != {} ==> r.Success?
    ensures r.Success? ==>
      var e := r.value.env;
      && Setup(config).Success? && pick in Setup(config).value.field.empty
      && Wf(e) && e.config == config && e.timestepIndex == 0 && !e.isGameOver
      && e.snakes == Setup(config).value.snakes && |e.field.cells| == |config.level|
      && e.fruit == Some(pick) && Get(e.field, pick) == Fruit
      && |r.value.results| == 2
      && r.value.results[0] == r.value.results[1] == TimestepResult(Observation(e.field), 0, false)
  {
    var st := Setup(config);
    if st.Failure? then Failure(st.error) else Begin(config, st.value, pick)
  }

  /** `choose_action`: agent i's snake takes actions[i]. Only headings
      change: a left turn is a counter-clockwise quarter turn, a right turn
      a clockwise one, keeping the direction changes nothing, and no body,
      cell or counter changes. A turn addressed to an agent the episode
      does not have looks up a snake past the end of the list and fails;
      an extra keep-direction action is never looked up. */
  function ChooseAction(e: Env, actions: seq<Action>): (r: Result<Env>)
    ensures r.Failure? <==> exists i :: |e.snakes| <= i < |actions| && !actions[i].MaintainDirection?
    ensures r.Failure? ==> r.error == NoSuchAgent
    ensures r.Success? ==>
      && r.value == e.(snakes := r.value.snakes) && |r.value.snakes| == |e.snakes|
      && (forall i :: 0 <= i < |e.snakes| ==> r.value.snakes[i].body == e.snakes[i].body)
      && (forall i :: |actions| <= i < |e.snakes| ==> r.value.snakes[i] == e.snakes[i])
    ensures r.Success? ==> forall i :: 0 <= i < |actions| && i < |e.snakes| ==>
      && (actions[i].MaintainDirection? ==> r.value.snakes[i] == e.snakes[i])
      && (actions[i].TurnLeft? ==>
            r.value.snakes[i].direction == Point(e.snakes[i].direction.y, -e.snakes[i].direction.x))
      && (actions[i].TurnRight? ==>
            r.value.snakes[i].direction == Point(-e.snakes[i].direction.y, e.snakes[i].direction.x))
  {
    if exists i :: |e.snakes| <= i < |actions| && !actions[i].MaintainDirection? then
      Failure(NoSuchAgent)
    else
      Success(e.(snakes := seq(|e.snakes|, i requires 0 <= i < |e.snakes| =>
                                 if i < |actions| then Steer(e.snakes[i], actions[i]) else e.snakes[i])))
  }

  /** Steering every agent back with the opposite actions restores the
      episode: a choice of actions changes headings only, and reversibly. */
  lemma ChooseActionUndone(e: Env, actions: seq<Action>)
    requires ChooseAction(e, actions).Success?
    ensures ChooseAction(ChooseAction(e, actions).value, seq(|actions|, k requires 0 <= k < |actions| => Opposite(actions[k]))) == Success(e)
  {
    var back := seq(|actions|, k requires 0 <= k < |actions| => Opposite(actions[k]));
    var mid := ChooseAction(e, actions).value;
    assert !exists i :: |mid.snakes| <= i < |back| && !back[i].MaintainDirection? by {
      assert forall i :: 0 <= i < |back| ==> (back[i].MaintainDirection? <==> actions[i].MaintainDirection?);
    }
    var r := ChooseAction(mid, back);
    forall i | 0 <= i < |e.snakes|
      ensures r.value.snakes[i] == e.snakes[i]
    {
      if i < |actions| {
        assert mid.snakes[i] == Steer(e.snakes[i], actions[i]);
        assert r.value.snakes[i] == Steer(mid.snakes[i], back[i]);
        SteerOpposite(e.snakes[i], actions[i]);
      }
    }
    assert r.value.snakes == e.snakes;
  }

  /** Whether agent i's next cell is the fruit. */
  predicate Eats(e: Env, i: AgentId)
    requires |e.snakes| == 2 && |e.snakes[i].body| > 0
  {
    e.fruit == Some(PeekNextMove(e.snakes[i]))
  }

  function HeadCell(e: Env, i: AgentId): Cell
    requires Wf(e)
  {
    Get(e.field, Head(e.snakes[i]))
  }

  /** Whether two bodies have a coordinate in common (the set intersection
      in `has_hit_other_body`). */
  function SharesCell(a: seq<Point>, b: seq<Point>): (r: bool)
    ensures r <==> exists j, k :: 0 <= j < |a| && 0 <= k < |b| && a[j] == b[k]
  {
    var common := (set p | p in a) * (set p | p in b);
    assert forall j, k :: 0 <= j < |a| && 0 <= k < |b| && a[j] == b[k] ==> a[j] in common;
    if common != {} then
      var p :| p in common;
      assert p in a && p in b;
      true
    else
      false
  }

  /** `has_hit_wall`. */
  predicate HasHitWall(e: Env, i: AgentId)
    requires Wf(e)
  {
    HeadCell(e, i) == Wall
  }

  /** `has_hit_own_body`. */
  predicate HasHitOwnBody(e: Env, i: AgentId)
    requires Wf(e)
  {
    HeadCell(e, i) == SnakeBody(i)
  }

  /** `has_hit_other_body`: the head cell holds the other snake's body or
      head, or the two bodies share a coordinate. */
  predicate HasHitOtherBody(e: Env, i: AgentId)
    requires Wf(e)
  {
    || HeadCell(e, i) == SnakeBody(Other(i))
    || HeadCell(e, i) == SnakeHead(Other(i))
    || SharesCell(e.snakes[i].body, e.snakes[Other(i)].body)
  }

  /** `is_alive`: the head cell holds EMPTY, FRUIT or this snake's own head,
      and the two bodies are apart. */
  predicate IsAlive(e: Env, i: AgentId)
    requires Wf(e)
    ensures IsAlive(e, i) <==>
      && HeadCell(e, i) in {Empty, Fruit, SnakeHead(i)}
      && forall j, k :: 0 <= j < |e.snakes[i].body| && 0 <= k < |e.snakes[Other(i)].body| ==>
           e.snakes[i].body[j] != e.snakes[Other(i)].body[k]
  {
    !HasHitWall(e, i) && !HasHitOwnBody(e, i) && !HasHitOtherBody(e, i)
  }

  /** The termination reason `timestep` records for a dead snake: the checks
      run in the order wall, own body, other body and a later match
      overwrites an earlier one, so other body wins over own body, which
      wins over wall. The step limit is not a cause of death. */
  function TerminationReason(e: Env, i: AgentId): (r: Option<Reason>)
    requires Wf(e)
    ensures r != Some(TimestepLimitExceeded)
    ensures r.None? <==> IsAlive(e, i)
    ensures r == Some(HitOtherBody) <==> HasHitOtherBody(e, i)
    ensures r == Some(HitOwnBody) <==> HasHitOwnBody(e, i) && !HasHitOtherBody(e, i)
    ensures r == Some(HitWall) <==> HasHitWall(e, i) && !HasHitOwnBody(e, i) && !HasHitOtherBody(e, i)
  {
    if IsAlive(e, i) then None
    else
      var afterWall := if HasHitWall(e, i) then Some(HitWall) else None;
      var afterOwn := if HasHitOwnBody(e, i) then Some(HitOwnBody) else afterWall;
      if HasHitOtherBody(e, i) then Some(HitOtherBody) else afterOwn
  }

  /** A state after agent i has moved and its footprint has been written,
      with the reward earned before any death. */
  datatype Advanced = Advanced(env: Env, reward: int)

  /** Steps 1-4 of agent i's turn when its next cell is the fruit: grow,
      draw a new fruit, earn the fruit reward per unit of the new length,
      and write the footprint with no cell freed. */
  function Feed(e: Env, i: AgentId, pick: Point): (a: Advanced)
    requires Wf(e) && InBounds(e.field, PeekNextMove(e.snakes[i]))
    requires pick in e.field.empty
    ensures Wf(a.env) && |a.env.field.cells| == |e.field.cells|
    ensures a.env == e.(snakes := a.env.snakes, field := a.env.field, fruit := Some(pick))
    ensures a.env.snakes == e.snakes[i := Grow(e.snakes[i])]
    ensures a.reward == e.config.rewards.ateFruit * |a.env.snakes[i].body|
    ensures a.env.field ==
      UpdateSnakeFootprint(Put(e.field, pick, Fruit), Head(e.snakes[i]), None, PeekNextMove(e.snakes[i]), i)
  {
    var s := e.snakes[i];
    var grown := Grow(s);
    var fed := GenerateFruit(e.(snakes := e.snakes[i := grown]), pick);
    var f := UpdateSnakeFootprint(fed.field, Head(s), None, Head(grown), i);
    assert Placed(f, grown) && Placed(f, e.snakes[Other(i)]);
    Advanced(fed.(field := f), e.config.rewards.ateFruit * |grown.body|)
  }

  /** Steps 1-4 of agent i's turn otherwise: move, earn the step reward, and
      write the footprint with the old tail freed. */
  function Slide(e: Env, i: AgentId): (a: Advanced)
    requires Wf(e) && InBounds(e.field, PeekNextMove(e.snakes[i]))
    ensures Wf(a.env) && |a.env.field.cells| == |e.field.cells|
    ensures a.env == e.(snakes := a.env.snakes, field := a.env.field)
    ensures a.env.snakes == e.snakes[i := Move(e.snakes[i])]
    ensures a.reward == e.config.rewards.timestep
    ensures a.env.field ==
      UpdateSnakeFootprint(e.field, Head(e.snakes[i]), Some(Tail(e.snakes[i])), PeekNextMove(e.snakes[i]), i)
  {
    var s := e.snakes[i];
    var moved := Move(s);
    var f := UpdateSnakeFootprint(e.field, Head(s), Some(Tail(s)), Head(moved), i);
    assert Placed(f, moved) && Placed(f, e.snakes[Other(i)]);
    Advanced(e.(snakes := e.snakes[i := moved], field := f), e.config.rewards.timestep)
  }

  /** Steps 1-4 of agent i's turn in `timestep`: eat or move. */
  function Advance(e: Env, i: AgentId, pick: Point): (a: Advanced)
    requires Wf(e) && InBounds(e.field, PeekNextMove(e.snakes[i]))
    requires Eats(e, i) ==> pick in e.field.empty
    ensures Wf(a.env) && |a.env.field.cells| == |e.field.cells|
    ensures a.env.config == e.config && a.env.timestepIndex == e.timestepIndex
    ensures a.env.isGameOver == e.isGameOver
    ensures a.env.snakes[Other(i)] == e.snakes[Other(i)]
    ensures Head(a.env.snakes[i]) == PeekNextMove(e.snakes[i])
    ensures Eats(e, i) ==>
      && |a.env.snakes[i].body| == |e.snakes[i].body| + 1
      && a.env.fruit == Some(pick)
      && a.reward == e.config.rewards.ateFruit * |a.env.snakes[i].body|
    ensures !Eats(e, i) ==>
      && |a.env.snakes[i].body| == |e.snakes[i].body|
      && a.env.fruit == e.fruit
      && a.reward == e.config.rewards.timestep
    ensures Eats(e, i) ==> a == Feed(e, i, pick)
    ensures !Eats(e, i) ==> a == Slide(e, i)
  {
    if Eats(e, i) then Feed(e, i, pick) else Slide(e, i)
  }

  /** One agent's outcome of a tick: the new state, its result and the
      termination reason recorded this tick, if any. */
  datatype AgentOutcome = AgentOutcome(env: Env, result: TimestepResult, reason: Option<Reason>)

  /** Steps 5-7 of agent i's turn, on the state after its footprint write:
      a dead snake gets the death reward in place of whatever it earned, its
      head re-stamped and the game over; the step limit also ends the game
      and, checked last, replaces any death reason with its own; the result
      carries a copy of the grid and the game-over flag. */
  function Settle(moved: Env, i: AgentId, reward: int): (o: AgentOutcome)
    requires Wf(moved)
    ensures Wf(o.env) && |o.env.field.cells| == |moved.field.cells|
    ensures o.env == moved.(field := o.env.field, isGameOver := o.env.isGameOver)
    ensures moved.timestepIndex < moved.config.maxStepLimit ==> o.reason == TerminationReason(moved, i)
    ensures moved.timestepIndex >= moved.config.maxStepLimit ==> o.reason == Some(TimestepLimitExceeded)
    ensures IsAlive(moved, i) ==> o.env.field == moved.field && o.result.reward == reward
    ensures !IsAlive(moved, i) ==>
      && o.result.reward == moved.config.rewards.died
      && o.env.field == Put(moved.field, Head(moved.snakes[i]), SnakeHead(i))
    ensures o.env.isGameOver ==
      (moved.isGameOver || !IsAlive(moved, i) || moved.timestepIndex >= moved.config.maxStepLimit)
    ensures o.result.isEpisodeEnd == o.env.isGameOver
    ensures o.result.observation == Observation(o.env.field)
  {
    var alive := IsAlive(moved, i);
    var settled :=
      if alive then moved
      else moved.(field := Put(moved.field, Head(moved.snakes[i]), SnakeHead(i)), isGameOver := true);
    assert Placed(settled.field, settled.snakes[0]) && Placed(settled.field, settled.snakes[1]);
    var final :=
      if settled.timestepIndex >= settled.config.maxStepLimit then settled.(isGameOver := true)
      else settled;
    AgentOutcome(final,
                 TimestepResult(Observation(final.field), if alive then reward else moved.config.rewards.died,
                                final.isGameOver),
                 if final.timestepIndex >= final.config.maxStepLimit then Some(TimestepLimitExceeded)
                 else TerminationReason(moved, i))
  }

  /** Agent i's whole turn in `timestep`. The eat-or-move choice fixes the
      length change, the fruit and the reward; a snake found dead after its
      footprint write gets the death reward instead, its head re-stamped and
      the game over; the step limit also ends the game and becomes the
      recorded reason, and nothing here clears the game-over flag. */
  function AgentStep(e: Env, i: AgentId, pick: Point): (o: AgentOutcome)
    requires Wf(e) && InBounds(e.field, PeekNextMove(e.snakes[i]))
    requires Eats(e, i) ==> pick in e.field.empty
    ensures Wf(o.env) && |o.env.field.cells| == |e.field.cells|
    ensures o.env.config == e.config && o.env.timestepIndex == e.timestepIndex
    ensures o.env.snakes[Other(i)] == e.snakes[Other(i)]
    ensures |o.env.snakes[i].body| >= |e.snakes[i].body|
    ensures Eats(e, i) ==>
      && |o.env.snakes[i].body| == |e.snakes[i].body| + 1
      && o.env.fruit == Some(pick)
      && (IsAlive(Advance(e, i, pick).env, i) ==>
            o.result.reward == e.config.rewards.ateFruit * |o.env.snakes[i].body|)
    ensures !Eats(e, i) ==>
      && |o.env.snakes[i].body| == |e.snakes[i].body|
      && o.env.fruit == e.fruit
      && (IsAlive(Advance(e, i, pick).env, i) ==> o.result.reward == e.config.rewards.timestep)
    ensures Head(o.env.snakes[i]) == PeekNextMove(e.snakes[i])
    ensures e.timestepIndex < e.config.maxStepLimit ==> o.reason == TerminationReason(Advance(e, i, pick).env, i)
    ensures e.timestepIndex >= e.config.maxStepLimit ==> o.reason == Some(TimestepLimitExceeded)
    ensures o.env == Advance(e, i, pick).env.(field := o.env.field, isGameOver := o.env.isGameOver)
    ensures IsAlive(Advance(e, i, pick).env, i) ==> o.env.field == Advance(e, i, pick).env.field
    ensures !IsAlive(Advance(e, i, pick).env, i) ==>
      && o.result.reward == e.config.rewards.died
      && o.env.field == Put(Advance(e, i, pick).env.field, Head(Advance(e, i, pick).env.snakes[i]), SnakeHead(i))
    ensures o.env.isGameOver ==
      (e.isGameOver || !IsAlive(Advance(e, i, pick).env, i) || e.timestepIndex >= e.config.maxStepLimit)
    ensures o.result.isEpisodeEnd == o.env.isGameOver
  {
    var a := Advance(e, i, pick);
    Settle(a.env, i, a.reward)
  }

  /** The state agent 0 starts from: the counter already advanced. */
  function CountTick(e: Env): (r: Env)
    ensures r == e.(timestepIndex := r.timestepIndex) && r.timestepIndex == e.timestepIndex + 1
  {
    e.(timestepIndex := e.timestepIndex + 1)
  }

  /** The tick `timestep` performs: the new state, both results and the
      termination reasons recorded this tick. */
  datatype Tick = Tick(env: Env, results: seq<TimestepResult>, reasons: seq<Option<Reason>>)

  /** Both heads can move without leaving the field. */
  ghost predicate CanStep(e: Env) {
    && Wf(e)
    && InBounds(e.field, PeekNextMove(e.snakes[0]))
    && InBounds(e.field, PeekNextMove(e.snakes[1]))
  }

  /** A fruit draw happens and has nothing to draw from: agent i eats when
      no cell is empty, and `random.choice` on the empty list raises
      IndexError. */
  predicate DrawFails(e: Env, i: AgentId)
    requires |e.snakes| == 2 && |e.snakes[i].body| > 0
  {
    Eats(e, i) && e.field.empty == {}
  }

  /** The drawn fruit cells are members of the empty-cell set at the moment
      of each draw that can happen: agent 0's on the incoming state, agent
      1's after agent 0's turn. */
  ghost predicate FairPicks(e: Env, pick0: Point, pick1: Point)
    requires CanStep(e)
  {
    && (Eats(e, 0) && e.field.empty != {} ==> pick0 in e.field.empty)
    && (!DrawFails(e, 0) ==>
          var mid := AgentStep(CountTick(e), 0, pick0).env;
          Eats(mid, 1) && mid.field.empty != {} ==> pick1 in mid.field.empty)
  }

  /** Agent 1's turn on the state agent 0 left, completing the tick: agent
      0's result and reason are kept, the flag stays set once set, and the
      step limit makes agent 1's result terminal with the step-limit reason. */
  function SecondTurn(o0: AgentOutcome, pick1: Point): (t: Tick)
    requires Wf(o0.env) && InBounds(o0.env.field, PeekNextMove(o0.env.snakes[1]))
    requires Eats(o0.env, 1) ==> pick1 in o0.env.field.empty
    ensures Wf(t.env) && t.env.config == o0.env.config && |t.env.field.cells| == |o0.env.field.cells|
    ensures t.env.timestepIndex == o0.env.timestepIndex
    ensures |t.results| == 2 && |t.reasons| == 2 && t.results[0] == o0.result && t.reasons[0] == o0.reason
    ensures o0.env.isGameOver ==> t.results[1].isEpisodeEnd
    ensures o0.env.timestepIndex >= o0.env.config.maxStepLimit ==>
      t.results[1].isEpisodeEnd && t.reasons[1] == Some(TimestepLimitExceeded)
    ensures o0.env.timestepIndex < o0.env.config.maxStepLimit ==> t.reasons[1] != Some(TimestepLimitExceeded)
    ensures t.env.isGameOver == t.results[1].isEpisodeEnd
    ensures t.env.snakes[0] == o0.env.snakes[0] && |t.env.snakes[1].body| >= |o0.env.snakes[1].body|
  {
    var o1 := AgentStep(o0.env, 1, pick1);
    Tick(o1.env, [o0.result, o1.result], [o0.reason, o1.reason])
  }

  /** `timestep`: advances the counter by exactly one, then runs agent 0's
      turn and agent 1's turn on the state agent 0 left. A draw with no empty
      cell left fails the tick. Otherwise the game-over flag is never
      cleared, so a terminal result for agent 0 makes agent 1's terminal
      too, and reaching the step limit makes both terminal and records the
      step-limit reason for both. */
  function Timestep(e: Env, pick0: Point, pick1: Point): (r: Result<Tick>)
    requires CanStep(e) && FairPicks(e, pick0, pick1)
    ensures r.Failure? <==>
      DrawFails(e, 0) || DrawFails(AgentStep(CountTick(e), 0, pick0).env, 1)
    ensures r.Failure? ==> r.error == NoEmptyCell
    ensures r.Success? ==>
      var t := r.value;
      && Wf(t.env) && t.env.config == e.config && |t.env.field.cells| == |e.field.cells|
      && t.env.timestepIndex == e.timestepIndex + 1
      && |t.results| == 2 && |t.reasons| == 2
      && (t.results[0].isEpisodeEnd ==> t.results[1].isEpisodeEnd)
      && (e.isGameOver ==> t.results[0].isEpisodeEnd && t.results[1].isEpisodeEnd)
      && (e.timestepIndex + 1 >= e.config.maxStepLimit ==>
            && t.results[0].isEpisodeEnd && t.results[1].isEpisodeEnd
            && t.reasons[0] == t.reasons[1] == Some(TimestepLimitExceeded))
      && (e.timestepIndex + 1 < e.config.maxStepLimit ==>
            t.reasons[0] != Some(TimestepLimitExceeded) && t.reasons[1] != Some(TimestepLimitExceeded))
      && t.env.isGameOver == t.results[1].isEpisodeEnd
      && |t.env.snakes[0].body| >= |e.snakes[0].body| && |t.env.snakes[1].body| >= |e.snakes[1].body|
  {
    if DrawFails(e, 0) then Failure(NoEmptyCell)
    else
      var o0 := AgentStep(CountTick(e), 0, pick0);
      if DrawFails(o0.env, 1) then Failure(NoEmptyCell)
      else Success(SecondTurn(o0, pick1))
  }

  /** A tick in which both draws can happen is agent 0's turn followed by
      agent 1's turn on the state agent 0 left. */
  lemma TimestepIsTwoTurns(e: Env, pick0: Point, pick1: Point)
    requires CanStep(e) && FairPicks(e, pick0, pick1)
    requires !DrawFails(e, 0) && !DrawFails(AgentStep(CountTick(e), 0, pick0).env, 1)
    ensures var o0 := AgentStep(CountTick(e), 0, pick0);
            var o1 := AgentStep(o0.env, 1, pick1);
            Timestep(e, pick0, pick1) == Success(Tick(o1.env, [o0.result, o1.result], [o0.reason, o1.reason]))
  {
  }
}
