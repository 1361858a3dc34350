/**
 * One game session: a snake, an apple, the time accumulated since the last
 * move and the score. Each frame applies the direction keys, moves the
 * snake when more than 50 ms have accumulated, and lets the snake eat the
 * apple when its head is on it. GameState, FrameStep and Run describe the
 * session as a value; the class Game holds it as the source's variables and
 * its methods are proved to follow FrameStep and Run.
 */
module Game {
  import opened Grid
  import opened SnakeState
  import opened Apple

  const InitialLength: int := 5
  /** Segments added per apple eaten. */
  const GrowBy: int := 10
  /** The snake moves once the accumulated time exceeds 50 ms; durations are
      counted in nanoseconds, as a time.Duration is. */
  const TickNanos: int := 50_000_000

  /** Which directional keys are held down during a frame. */
  datatype Keys = Keys(up: bool, left: bool, down: bool, right: bool)

  /** One frame's view of the outside world: whether the window was closed,
      the keys held, the time the frame took in nanoseconds, and a random
      draw. */
  datatype FrameInput = FrameInput(closed: bool, keys: Keys, elapsed: nat, roll: nat)

  predicate Pressed(keys: Keys, d: Direction) {
    match d
    case Up => keys.up
    case Left => keys.left
    case Down => keys.down
    case Right => keys.right
  }

  /** Position of a direction in the source's enumeration; keys are tested
      in this order. */
  function Rank(d: Direction): nat {
    match d
    case Up => 0
    case Left => 1
    case Down => 2
    case Right => 3
  }

  /** The keys held with only direction d pressed. */
  function Only(d: Direction): (keys: Keys)
    ensures forall e :: Pressed(keys, e) <==> e == d
  {
    Keys(d == Up, d == Left, d == Down, d == Right)
  }

  /** The heading after a frame's input: the pressed key that comes first in
      the order Up, Left, Down, Right wins; with no key the heading stays. */
  function NextDirection(keys: Keys, current: Direction): (r: Direction)
    ensures (exists e :: Pressed(keys, e)) ==>
      Pressed(keys, r) && forall e :: Pressed(keys, e) ==> Rank(r) <= Rank(e)
    ensures (forall e :: !Pressed(keys, e)) ==> r == current
  {
    if keys.up then assert Pressed(keys, Up); Up
    else if keys.left then assert Pressed(keys, Left); Left
    else if keys.down then assert Pressed(keys, Down); Down
    else if keys.right then assert Pressed(keys, Right); Right
    else current
  }

  /** Growing appends copies of the tail, which use no new column and no new
      row, so the apple candidates do not change. */
  lemma GrowKeepsCandidates(body: seq<Cell>, n: nat)
    requires |body| > 0
    ensures ValidPositions(Grown(body, n)) == ValidPositions(body)
  {
    var g := Grown(body, n);
    forall c | c in g ensures c in body {
      var i :| 0 <= i < |g| && g[i] == c;
      if i < |body| {
        assert g[..|body|][i] == c;
      }
    }
    forall c | c in body ensures c in g {
      var i :| 0 <= i < |body| && body[i] == c;
      assert g[..|body|][i] == c;
    }
    assert UsedCols(g) == UsedCols(body);
    assert UsedRows(g) == UsedRows(body);
  }

  /** Pressing only the key opposite to the heading the snake last moved in
      kills a snake of three or more cells on its next move. */
  lemma ReverseKeyKills(body: seq<Cell>, d: Direction)
    requires |body| >= 3
    ensures NextDirection(Only(Opposite(d)), d) == Opposite(d)
    ensures !Survives(Shifted(Shifted(body, d), NextDirection(Only(Opposite(d)), d)))
  {
    assert Pressed(Only(Opposite(d)), Opposite(d));
    ReversalLandsOnNeck(body, d);
  }

  /** The state of a session: the snake's fields, the apple, the time
      accumulated since the last move, and the score. */
  datatype GameState = GameState(
    body: seq<Cell>, direction: Direction, alive: bool,
    apple: Cell, dt: int, score: int)

  /** Between frames: the score counts the initial length plus one per
      apple, each apple added GrowBy segments, and the apple is on the board
      and off the snake. */
  predicate ValidState(s: GameState) {
    s.score >= InitialLength
    && |s.body| == InitialLength + GrowBy * (s.score - InitialLength)
    && s.dt >= 0
    && InGrid(s.apple) && s.apple !in s.body
  }

  /** The body after a frame's input and tick step. */
  function Ticked(s: GameState, keys: Keys): (r: seq<Cell>)
    requires |s.body| > 0
    ensures |r| == |s.body|
  {
    if s.dt > TickNanos then Shifted(s.body, NextDirection(keys, s.direction)) else s.body
  }

  /** The head is on the apple after the tick step. */
  predicate Eats(s: GameState, keys: Keys)
    requires |s.body| > 0
  {
    Ticked(s, keys)[0] == s.apple
  }

  /** One frame: keys, throttled move, eat rule with candidate k, and the
      frame's duration added to the accumulated time. */
  function FrameStep(s: GameState, keys: Keys, elapsed: nat, k: nat): (r: GameState)
    requires |s.body| > 0
    requires Eats(s, keys) ==> k < |ValidPositions(Ticked(s, keys))|
    ensures |r.body| >= |s.body|
    ensures r.alive ==> s.alive
    ensures r.direction == NextDirection(keys, s.direction)
    ensures r.score >= s.score
  {
    var d := NextDirection(keys, s.direction);
    var moved := s.dt > TickNanos;
    var body := Ticked(s, keys);
    var alive := if moved then s.alive && Survives(body) else s.alive;
    var dt := if moved then 0 else s.dt;
    if body[0] == s.apple then
      GameState(Grown(body, GrowBy), d, alive, ValidPositions(body)[k], dt + elapsed, s.score + 1)
    else
      GameState(body, d, alive, s.apple, dt + elapsed, s.score)
  }

  /** A frame would draw from an empty candidate list, which fails. */
  predicate Panics(s: GameState, input: FrameInput)
    requires |s.body| > 0
  {
    Eats(s, input.keys) && |ValidPositions(Ticked(s, input.keys))| == 0
  }

  /** The candidate index a frame's random draw selects. */
  function PickIndex(s: GameState, input: FrameInput): (k: nat)
    requires |s.body| > 0
    ensures Eats(s, input.keys) && !Panics(s, input) ==> k < |ValidPositions(Ticked(s, input.keys))|
  {
    if Panics(s, input) || !Eats(s, input.keys) then 0
    else input.roll % |ValidPositions(Ticked(s, input.keys))|
  }

  /** What running the game loop over a sequence of frame inputs gives: how
      many frames ran, the state at the start of each, whether the loop
      stopped at a frame that fails, and the state reached. */
  datatype Outcome = Outcome(frames: nat, starts: seq<GameState>, panicked: bool, final: GameState)

  /** The game loop on values: it runs frames while the window is open and
      the snake is alive, and stops before a frame that fails. */
  function Run(s: GameState, inputs: seq<FrameInput>): (r: Outcome)
    requires |s.body| > 0
    ensures r.frames <= |inputs| && |r.starts| == r.frames && |r.final.body| > 0
    decreases |inputs|
  {
    if inputs == [] || inputs[0].closed || !s.alive then Outcome(0, [], false, s)
    else if Panics(s, inputs[0]) then Outcome(0, [], true, s)
    else
      var input := inputs[0];
      var next := FrameStep(s, input.keys, input.elapsed, PickIndex(s, input));
      var rest := Run(next, inputs[1..]);
      Outcome(rest.frames + 1, [s] + rest.starts, rest.panicked, rest.final)
  }

  /** A frame keeps the invariant, and the head can be on the apple only
      after a move. */
  lemma FrameStepKeepsValid(s: GameState, keys: Keys, elapsed: nat, k: nat)
    requires ValidState(s)
    requires Eats(s, keys) ==> k < |ValidPositions(Ticked(s, keys))|
    ensures ValidState(FrameStep(s, keys, elapsed, k))
    ensures Eats(s, keys) ==> s.dt > TickNanos
  {
    var body := Ticked(s, keys);
    var r := FrameStep(s, keys, elapsed, k);
    if s.dt > TickNanos {
      ShiftedCells(s.body, NextDirection(keys, s.direction));
    }
    if Eats(s, keys) {
      ValidPositionsAvoidSnake(body, r.apple);
      GrowKeepsCandidates(body, GrowBy);
      ValidPositionsAvoidSnake(Grown(body, GrowBy), r.apple);
    }
  }

  /** The eat rule: on the apple, the body grows by exactly GrowBy, the score
      rises by one and the new apple is a candidate off the snake; otherwise
      body, score and apple stay as after the tick step. */
  lemma FrameStepEatRule(s: GameState, keys: Keys, elapsed: nat, k: nat)
    requires |s.body| > 0
    requires Eats(s, keys) ==> k < |ValidPositions(Ticked(s, keys))|
    ensures Eats(s, keys) ==>
      var r := FrameStep(s, keys, elapsed, k);
      |r.body| == |s.body| + GrowBy && r.body[..|s.body|] == Ticked(s, keys)
      && r.score == s.score + 1
      && r.apple in ValidPositions(r.body) && r.apple !in r.body && InGrid(r.apple)
    ensures !Eats(s, keys) ==>
      var r := FrameStep(s, keys, elapsed, k);
      r.body == Ticked(s, keys) && r.score == s.score && r.apple == s.apple
  {
    if Eats(s, keys) {
      var body := Ticked(s, keys);
      var r := FrameStep(s, keys, elapsed, k);
      GrowKeepsCandidates(body, GrowBy);
      ValidPositionsAvoidSnake(r.body, r.apple);
    }
  }

  /** The tick: with more than 50 ms accumulated the snake moves once and the
      accumulated time restarts from zero; otherwise body and time carry
      over. Either way the frame's duration is then added. */
  lemma FrameStepTick(s: GameState, keys: Keys, elapsed: nat, k: nat)
    requires |s.body| > 0
    requires Eats(s, keys) ==> k < |ValidPositions(Ticked(s, keys))|
    ensures s.dt > TickNanos ==>
      FrameStep(s, keys, elapsed, k).dt == elapsed
      && Ticked(s, keys)[0] == Step(s.body[0], NextDirection(keys, s.direction))
      && FrameStep(s, keys, elapsed, k).alive == (s.alive && Survives(Ticked(s, keys)))
    ensures s.dt <= TickNanos ==>
      FrameStep(s, keys, elapsed, k).dt == s.dt + elapsed
      && Ticked(s, keys) == s.body
      && FrameStep(s, keys, elapsed, k).alive == s.alive
  {
  }

  /** One frame of the loop, unfolded: when the first frame runs, the run
      is that frame followed by the run of the remaining inputs. */
  lemma RunFirstFrame(s: GameState, inputs: seq<FrameInput>)
    requires |s.body| > 0
    requires inputs != [] && !inputs[0].closed && s.alive && !Panics(s, inputs[0])
    ensures var next := FrameStep(s, inputs[0].keys, inputs[0].elapsed, PickIndex(s, inputs[0]));
      var rest := Run(next, inputs[1..]);
      Run(s, inputs) == Outcome(rest.frames + 1, [s] + rest.starts, rest.panicked, rest.final)
  {
  }

  /** The frames a run executes: it starts from s, and a frame runs only
      while the window is open and the snake is alive, and only when it
      does not fail. */
  lemma {:induction false} RunFrames(s: GameState, inputs: seq<FrameInput>)
    requires |s.body| > 0
    ensures var r := Run(s, inputs);
      (r.frames > 0 ==> r.starts[0] == s)
      && (r.frames == 0 ==> r.final == s)
      && forall f :: 0 <= f < r.frames ==>
           !inputs[f].closed && r.starts[f].alive && |r.starts[f].body| > 0
           && !Panics(r.starts[f], inputs[f])
    decreases |inputs|
  {
    if inputs == [] || inputs[0].closed || !s.alive || Panics(s, inputs[0]) {
    } else {
      var input := inputs[0];
      var next := FrameStep(s, input.keys, input.elapsed, PickIndex(s, input));
      RunFrames(next, inputs[1..]);
      var r := Run(s, inputs);
      var rest := Run(next, inputs[1..]);
      assert r.starts == [s] + rest.starts && r.frames == rest.frames + 1;
      forall f | 0 <= f < r.frames
        ensures !inputs[f].closed && r.starts[f].alive && |r.starts[f].body| > 0
          && !Panics(r.starts[f], inputs[f])
      {
        if f > 0 {
          assert r.starts[f] == rest.starts[f - 1] && inputs[f] == inputs[1..][f - 1];
        }
      }
    }
  }

  /** Where a run stops: at the end of the inputs, on close or on death, or,
      with panicked set, before a frame that fails. The score never drops. */
  lemma {:induction false} RunStops(s: GameState, inputs: seq<FrameInput>)
    requires |s.body| > 0
    ensures var r := Run(s, inputs);
      (!r.panicked ==> r.frames == |inputs| || inputs[r.frames].closed || !r.final.alive)
      && (r.panicked ==>
            r.frames < |inputs| && !inputs[r.frames].closed && r.final.alive
            && Panics(r.final, inputs[r.frames]))
      && r.final.score >= s.score
    decreases |inputs|
  {
    if inputs == [] || inputs[0].closed || !s.alive || Panics(s, inputs[0]) {
    } else {
      var input := inputs[0];
      var next := FrameStep(s, input.keys, input.elapsed, PickIndex(s, input));
      RunStops(next, inputs[1..]);
      var r := Run(s, inputs);
      var rest := Run(next, inputs[1..]);
      assert r.frames == rest.frames + 1 && r.final == rest.final && r.panicked == rest.panicked;
      if r.frames < |inputs| {
        assert inputs[r.frames] == inputs[1..][rest.frames];
      }
    }
  }

  /** Every run keeps the invariant, and so does every state a frame starts
      from. */
  lemma {:induction false} RunKeepsValid(s: GameState, inputs: seq<FrameInput>)
    requires ValidState(s)
    ensures ValidState(Run(s, inputs).final)
    ensures forall f :: 0 <= f < Run(s, inputs).frames ==> ValidState(Run(s, inputs).starts[f])
    decreases |inputs|
  {
    if inputs == [] || inputs[0].closed || !s.alive || Panics(s, inputs[0]) {
    } else {
      var input := inputs[0];
      var next := FrameStep(s, input.keys, input.elapsed, PickIndex(s, input));
      FrameStepKeepsValid(s, input.keys, input.elapsed, PickIndex(s, input));
      RunKeepsValid(next, inputs[1..]);
      var r := Run(s, inputs);
      var rest := Run(next, inputs[1..]);
      assert r.starts == [s] + rest.starts && r.final == rest.final;
      forall f | 0 <= f < r.frames ensures ValidState(r.starts[f]) {
        if f > 0 {
          assert r.starts[f] == rest.starts[f - 1];
        }
      }
    }
  }

  class Game {
    var snake: Snake
    var apple: Cell
    var dt: int
    var score: int

    /** The session's variables as a value. */
    function State(): GameState
      reads this, snake
    {
      GameState(snake.body, snake.direction, snake.alive, apple, dt, score)
    }

    ghost predicate Valid()
      reads this, snake
    {
      ValidState(State())
    }

    /** The start of a session: a five-cell snake, the first apple, no
        accumulated time, and the score set to the snake's length. */
    constructor ()
      ensures Valid() && fresh(snake)
      ensures State() == GameState(StartBody(InitialLength), Left, true, NewApple(), 0, InitialLength)
    {
      var s := new Snake(InitialLength);
      snake := s;
      apple := NewApple();
      dt := 0;
      score := |s.body|;
    }

    /** One frame of the game loop: input, throttled move, eat rule, then
        the frame's duration is added to the accumulated time. The index k
        is the random draw used when the apple has to move. */
    method Frame(keys: Keys, elapsed: nat, k: nat)
      requires Valid()
      requires Eats(State(), keys) ==> k < |ValidPositions(Ticked(State(), keys))|
      modifies this, snake
      ensures Valid() && snake == old(snake)
      ensures State() == FrameStep(old(State()), keys, elapsed, k)
    {
      ghost var before := State();
      ghost var ticked := Ticked(before, keys);
      FrameStepKeepsValid(before, keys, elapsed, k);
      snake.direction := NextDirection(keys, snake.direction);
      if dt > TickNanos {
        snake.Move();
        dt := 0;
      }
      assert snake.body == ticked;
      if snake.body[0] == apple {
        snake.Grow(GrowBy);
        score := score + 1;
        GrowKeepsCandidates(ticked, GrowBy);
        apple := MoveApple(snake.body, k);
      }
      dt := dt + elapsed;
    }

    /** The game loop: frames run while the window is open and the snake is
        alive. It stops early, with panicked set, at a frame in which the
        apple would have to move but no candidate cell exists (the random
        draw over an empty range fails there). */
    method Play(inputs: seq<FrameInput>) returns (frames: nat, panicked: bool)
      requires Valid()
      modifies this, snake
      ensures Valid() && snake == old(snake)
      ensures frames == Run(old(State()), inputs).frames
      ensures panicked == Run(old(State()), inputs).panicked
      ensures State() == Run(old(State()), inputs).final
      ensures forall f :: 0 <= f < frames ==> !inputs[f].closed
      ensures !panicked ==> frames == |inputs| || inputs[frames].closed || !snake.alive
      ensures panicked ==> frames < |inputs| && !inputs[frames].closed && snake.alive
      ensures score >= old(score)
    {
      ghost var start := State();
      frames, panicked := 0, false;
      while frames < |inputs| && !inputs[frames].closed && snake.alive
        invariant Valid() && snake == old(snake)
        invariant frames <= |inputs|
        invariant Run(start, inputs).frames == frames + Run(State(), inputs[frames..]).frames
        invariant Run(start, inputs).panicked == Run(State(), inputs[frames..]).panicked
        invariant Run(start, inputs).final == Run(State(), inputs[frames..]).final
        decreases |inputs| - frames
      {
        var input := inputs[frames];
        var now := State();
        ghost var rest := inputs[frames..];
        assert rest[0] == input && rest[1..] == inputs[frames + 1..];
        if Panics(now, input) {
          assert Run(now, rest) == Outcome(0, [], true, now);
          panicked := true;
          RunStops(start, inputs);
          RunFrames(start, inputs);
          return;
        }
        RunFirstFrame(now, rest);
        Frame(input.keys, input.elapsed, PickIndex(now, input));
        frames := frames + 1;
      }
      assert Run(State(), inputs[frames..]) == Outcome(0, [], false, State());
      RunStops(start, inputs);
      RunFrames(start, inputs);
    }
  }
}
