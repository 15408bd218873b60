/**
  One iteration of the main loop as a transition on the game state. On every
  iteration the ball may move (only once the delay counter has reached
  `BallDelay`), the game may end, and otherwise the paddle moves and the
  counter goes up. Drawing, sleeping and reading the terminal are not part of
  the state: the key pressed is an input of the transition.
 */
module Game {
  import opened Config
  import opened Blocks
  import opened Sprites
  import opened Collision
  import opened Paddle

  datatype Outcome = Playing | Won | Lost

  /** The loop's variables: ball position and direction, paddle column,
      block flags, delay counter, and whether the game has ended. */
  datatype State = State(
    ballX: int, ballY: int,
    dirX: int, dirY: int,
    padX: int,
    blocks: Flags,
    delay: int,
    outcome: Outcome)

  /** The variables as `main` initialises them; they satisfy the invariant. */
  function Initial(): (s: State)
    ensures Inv(s)
  {
    assert !Broken(Unbroken(), BlockId(0, 0));
    State(0, RegionH, 1, 1, StartPadX, Unbroken(), 1, Playing)
  }

  /** This iteration moves the ball. */
  predicate Fires(s: State) {
    s.delay >= BallDelay
  }

  /** The cell the ball would enter, computed on both axes before either
      axis is committed. */
  function NextX(s: State): int { s.ballX + s.dirX }
  function NextY(s: State): int { s.ballY + s.dirY }

  /** The buffer reads a ball move makes are inside the buffer. */
  predicate CanStep(s: State) {
    && WellSized(s.blocks)
    && (s.outcome == Playing && Fires(s) ==>
          && (ProbesX(NextY(s), NextX(s)) ==> 0 <= NextY(s))
          && (ProbesY(NextY(s), NextX(s), s.padX) ==> 0 <= NextX(s)))
  }

  /** Moving the ball: resolve and commit the x axis, then resolve the y axis;
      stop if the ball fell through, otherwise commit y and reset the counter.
      Both resolvers read the buffer built at the top of the iteration. */
  function MoveBall(s: State): (t: State)
    requires CanStep(s) && s.outcome == Playing && Fires(s)
    ensures Le(s.blocks, t.blocks)
    ensures t.padX == s.padX
    ensures t.outcome == Playing || t.outcome == Lost
    ensures (t.dirX == s.dirX ==> t.ballX == s.ballX + s.dirX) && (t.dirX != s.dirX ==> t.ballX == s.ballX)
    ensures t.outcome == Playing ==>
              && (t.dirY == s.dirY ==> t.ballY == s.ballY + s.dirY)
              && (t.dirY != s.dirY ==> t.ballY == s.ballY)
              && t.delay == 0
    ensures t.outcome == Lost ==> t.ballY == s.ballY && t.dirY == s.dirY && t.delay == s.delay
    ensures t.outcome == Lost && s.dirY != 0 ==> NextY(s) > MaxY
  {
    var nx, ny := NextX(s), NextY(s);
    var sprites := Render(s.blocks);
    var rx := DirectionX(s.dirX, ny, nx, sprites, s.blocks);
    var ballX := if rx.dir == s.dirX then s.ballX + s.dirX else s.ballX;
    var ry := DirectionY(s.dirY, ny, nx, s.padX, sprites, rx.blocks);
    if ry.dir == LostDir then
      s.(ballX := ballX, dirX := rx.dir, blocks := ry.blocks, outcome := Lost)
    else
      s.(ballX := ballX, dirX := rx.dir,
         ballY := if ry.dir == s.dirY then s.ballY + s.dirY else s.ballY,
         dirY := ry.dir, blocks := ry.blocks, delay := 0)
  }

  /** One iteration of the main loop with `key` pressed. A finished game
      stays as it is. */
  function Step(s: State, key: Key): (t: State)
    requires CanStep(s)
    ensures s.outcome != Playing ==> t == s
    ensures Le(s.blocks, t.blocks)
    ensures s.outcome == Playing && !Fires(s) ==>
              && t.ballX == s.ballX && t.ballY == s.ballY
              && t.dirX == s.dirX && t.dirY == s.dirY && t.blocks == s.blocks
    ensures s.outcome == Playing && Fires(s) ==>
              && (t.dirX == s.dirX ==> t.ballX == s.ballX + s.dirX)
              && (t.dirX != s.dirX ==> t.ballX == s.ballX)
    ensures s.outcome == Playing && Fires(s) && t.outcome != Lost ==>
              && (t.dirY == s.dirY ==> t.ballY == s.ballY + s.dirY)
              && (t.dirY != s.dirY ==> t.ballY == s.ballY)
    ensures s.outcome == Playing && t.outcome != Lost ==> (t.outcome == Won <==> AllBroken(t.blocks))
    ensures s.outcome == Playing && t.outcome == Lost && s.dirY != 0 ==> Fires(s) && NextY(s) > MaxY
    ensures t.outcome != Playing ==> t.padX == s.padX
    ensures s.outcome == Playing && t.outcome == Playing ==> t.padX == s.padX + Keypress(key, s.padX)
  {
    if s.outcome != Playing then s
    else
      var moved := if Fires(s) then MoveBall(s) else s;
      if moved.outcome == Lost then moved
      else if AllBroken(moved.blocks) then moved.(outcome := Won)
      else moved.(padX := moved.padX + Keypress(key, moved.padX), delay := moved.delay + 1)
  }

  /* ---------------------------------------------------------------------- */
  /* The invariant of reachable states                                       */
  /* ---------------------------------------------------------------------- */

  /** What holds of every state the loop reaches: unit directions, the paddle
      in range, the ball inside the arena (column 0 only at the very start,
      heading right), the counter in [0, BallDelay], and a game that is still
      playing has a block left while a won game has none. */
  predicate Inv(s: State) {
    && Kinematics(s)
    && (s.outcome == Playing ==> 1 <= s.delay && !AllBroken(s.blocks))
    && (s.outcome == Won ==> AllBroken(s.blocks))
  }

  /** The part of the invariant about the ball, the paddle and the counter. */
  predicate Kinematics(s: State) {
    && WellSized(s.blocks)
    && (s.dirX == 1 || s.dirX == -1)
    && (s.dirY == 1 || s.dirY == -1)
    && InRange(s.padX)
    && 0 <= s.ballX <= MaxX - 1 && (s.ballX == 0 ==> s.dirX == 1)
    && 1 <= s.ballY <= MaxY
    && 0 <= s.delay <= BallDelay
  }

  /** Every buffer cell a ball move reads lies inside the buffer. */
  lemma ReadsInBounds(s: State)
    requires Inv(s)
    ensures CanStep(s)
    ensures ProbesX(NextY(s), NextX(s)) ==> InRegion(NextY(s), NextX(s))
    ensures ProbesY(NextY(s), NextX(s), s.padX) ==> InRegion(NextY(s), NextX(s))
  {
  }

  /** The x resolver bounced this move exactly when the next column is a wall
      or the next cell is a side cell of a standing block. */
  predicate XHit(s: State)
    requires WellSized(s.blocks)
  {
    Wall(NextX(s)) || (SideCell(NextY(s), NextX(s)) && !Broken(s.blocks, Owner(NextY(s), NextX(s))))
  }

  /** The y resolver bounced this move exactly when the next row is the
      ceiling, the next cell is in the paddle's span, or it is a top or bottom
      edge cell of a block still standing. The x resolver only ever breaks a
      block off a side cell, so it cannot have broken that block first. */
  predicate YHit(s: State)
    requires WellSized(s.blocks)
  {
    || Ceiling(NextY(s)) || PaddleHit(NextY(s), NextX(s), s.padX)
    || (EdgeCell(NextY(s), NextX(s)) && !Broken(s.blocks, Owner(NextY(s), NextX(s))))
  }

  /** The x direction of `t` is the flipped one exactly on an x bounce, and
      the block whose side was struck is then broken. */
  ghost predicate XBounce(s: State, t: State)
    requires WellSized(s.blocks) && WellSized(t.blocks)
  {
    && (t.dirX == -s.dirX <==> XHit(s))
    && (!Wall(NextX(s)) && XHit(s) ==> Broken(t.blocks, Owner(NextY(s), NextX(s))))
  }

  /** The y direction of `t` is the flipped one exactly on a y bounce; a
      bounce off a block edge breaks that block; and the flags change only
      by breaking the block of the probed cell. */
  ghost predicate YBounce(s: State, t: State)
    requires WellSized(s.blocks) && WellSized(t.blocks)
  {
    && (t.dirY == -s.dirY <==> YHit(s))
    && ((&& EdgeCell(NextY(s), NextX(s)) && YHit(s) && !Ceiling(NextY(s))
         && !PaddleHit(NextY(s), NextX(s), s.padX))
        ==> Broken(t.blocks, Owner(NextY(s), NextX(s))))
    && (t.blocks == s.blocks
        || (InRegion(NextY(s), NextX(s)) && t.blocks == Break(s.blocks, Owner(NextY(s), NextX(s)))))
  }

  /** Facts about a ball move from an invariant state, from the resolvers'
      geometry. */
  lemma MoveBallFacts(s: State)
    requires Inv(s) && s.outcome == Playing && Fires(s)
    ensures var t := MoveBall(s);
            && Kinematics(t)
            && 1 <= t.ballX <= MaxX - 1
            && (t.outcome == Lost <==> s.ballY == MaxY && s.dirY == 1)
            && (t.outcome == Lost ==> t.delay == s.delay)
            && (t.outcome != Lost ==> t.delay == 0 && t.outcome == Playing)
            && BrokenCount(s.blocks) <= BrokenCount(t.blocks) <= BrokenCount(s.blocks) + 1
            && XBounce(s, t)
            && YBounce(s, t)
  {
    var nx, ny := NextX(s), NextY(s);
    var f := s.blocks;
    var sprites := Render(f);
    assert Le(f, f);
    DirectionXGeometry(s.dirX, ny, nx, f, f);
    var rx := DirectionX(s.dirX, ny, nx, sprites, f);
    DirectionYGeometry(s.dirY, ny, nx, s.padX, f, rx.blocks);
    var ry := DirectionY(s.dirY, ny, nx, s.padX, sprites, rx.blocks);
    if rx.blocks != f {
      var o := Owner(ny, nx);
      BreakCount(f, o);
      assert ry.blocks == rx.blocks;
    } else if ry.blocks != rx.blocks {
      BreakCount(f, Owner(ny, nx));
    }
    var t := MoveBall(s);
    CountMonotone(f, t.blocks);
  }

  /** A ball move leaves the ball strictly inside the side walls and between
      the ceiling and the floor row. */
  lemma FiringTickBounds(s: State, key: Key)
    requires Inv(s) && s.outcome == Playing && Fires(s)
    ensures var t := Step(s, key);
            1 <= t.ballX <= MaxX - 1 && 1 <= t.ballY <= MaxY
  {
    MoveBallFacts(s);
  }

  /** The loop keeps the invariant. */
  lemma StepPreservesInv(s: State, key: Key)
    requires Inv(s)
    ensures CanStep(s) && Inv(Step(s, key))
  {
    if s.outcome == Playing && Fires(s) {
      MoveBallFacts(s);
    }
  }

  /** The ball is lost exactly on a move from the floor row heading down. */
  lemma LostExactly(s: State, key: Key)
    requires Inv(s) && s.outcome == Playing
    ensures Step(s, key).outcome == Lost <==> Fires(s) && s.ballY == MaxY && s.dirY == 1
  {
    if Fires(s) {
      MoveBallFacts(s);
    }
  }

  /** Both probes look at the same cell, so one iteration breaks at most one
      block, and never mends one. */
  lemma AtMostOneBreakPerStep(s: State, key: Key)
    requires Inv(s)
    ensures BrokenCount(s.blocks) <= BrokenCount(Step(s, key).blocks) <= BrokenCount(s.blocks) + 1
  {
    if s.outcome == Playing && Fires(s) {
      MoveBallFacts(s);
    }
  }

  /** The counter runs 1, 2, .., BallDelay and the ball moves exactly when it
      reaches BallDelay, after which it starts again from 1. */
  lemma DelayCadence(s: State, key: Key)
    requires Inv(s) && s.outcome == Playing
    ensures Fires(s) <==> s.delay == BallDelay
    ensures var t := Step(s, key);
            t.outcome == Playing ==> t.delay == (if Fires(s) then 1 else s.delay + 1)
  {
    if Fires(s) {
      MoveBallFacts(s);
    }
  }

  /* ---------------------------------------------------------------------- */
  /* Whole runs                                                              */
  /* ---------------------------------------------------------------------- */

  /** The loop run for one iteration per key in `keys`. */
  function Run(s: State, keys: seq<Key>): (t: State)
    requires Inv(s)
    ensures Inv(t)
    ensures Le(s.blocks, t.blocks)
    ensures BrokenCount(s.blocks) <= BrokenCount(t.blocks)
    decreases |keys|
  {
    if keys == [] then
      CountMonotone(s.blocks, s.blocks);
      s
    else
      StepPreservesInv(s, keys[0]);
      var t := Run(Step(s, keys[0]), keys[1..]);
      CountMonotone(s.blocks, t.blocks);
      t
  }

  /** Whatever keys are pressed, the paddle never leaves [1, MaxX - 3], and
      it moves at most one column per iteration. */
  lemma {:induction false} PaddleStaysInRange(s: State, keys: seq<Key>)
    requires Inv(s)
    ensures InRange(Run(s, keys).padX)
    ensures s.padX - |keys| <= Run(s, keys).padX <= s.padX + |keys|
    decreases |keys|
  {
    if keys != [] {
      StepPreservesInv(s, keys[0]);
      var t := Step(s, keys[0]);
      assert s.padX - 1 <= t.padX <= s.padX + 1;
      PaddleStaysInRange(t, keys[1..]);
    }
  }

  /** Once won or lost, the game stays so. */
  lemma {:induction false} FinishedStaysFinished(s: State, keys: seq<Key>)
    requires Inv(s) && s.outcome != Playing
    ensures Run(s, keys) == s
    decreases |keys|
  {
    if keys != [] {
      StepPreservesInv(s, keys[0]);
      FinishedStaysFinished(Step(s, keys[0]), keys[1..]);
    }
  }
}
