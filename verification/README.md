# Breakout simulation core in Dafny

A verified model of the simulation core of a terminal Breakout game
(`breakout.c`). A ball moves one cell at a time inside a walled arena. The
player moves a paddle along the bottom. Two rows of four blocks sit at the
top of the arena. A block breaks the first time the ball enters one of its
edge cells other than a corner, unless that cell is also the ceiling (row 0)
or a side wall (column 0 or `MaxX`). The model covers:

- the block flags;
- the sprite buffer derived from the flags;
- the two one-axis collision resolvers;
- the win test;
- the paddle's movement decision;
- one iteration of the main loop, as a transition on the game state.

## Layout

| file | module | models |
|---|---|---|
| `config.dfy` | `Config` | the constants of `breakout.c:13-22` (`MAX_X` is `MaxX`, `BLOCK_W` is `BlockW`, and so on) |
| `blocks.dfy` | `Blocks` | the `blocks` flag array (`Flags`), the glyph a tile cell shows (`TileGlyph`, `Sprite`), the owner of a cell (`Owner`), breaking a block (`Break`), `game_won` (`GameWon`), and a count of broken blocks |
| `sprites.dfy` | `Sprites` | the `block_sprites` buffer: `make_block` (`MakeBlock`), `break_block` (`BreakBlock`), `init_blocks` (`InitBlocks`/`InitFrom`, one block at a time by `Pass`), and `Render`, the buffer every cell of which already points at its owner |
| `collision.dfy` | `Collision` | `get_direction_x` (`DirectionX`) and `get_direction_y` (`DirectionY`) |
| `paddle.dfy` | `Paddle` | the decision in `get_keypress` (`Keypress`), with the key as an input |
| `game.dfy` | `Game` | the loop variables of `main` (`State`) and one iteration of the loop (`Step`, `MoveBall`) |

### How the model represents the program

- **Owner pointer.** Each sprite's `grid_member` pointer is a `Member`, either
  `Null` or `Ref(BlockId(row, col))`. Reading `*grid_member` means looking up
  that block's flag.
- **The buffer in the loop.** `main` rebuilds the buffer with `init_blocks` at
  the top of every iteration. `Sprites.BufferIsRender` proves that from the
  first iteration on this buffer is exactly `Render(flags)`. This holds
  because no block is broken on the first iteration, so every owner link gets
  set then, and `break_block` never clears one. `Game.Step` therefore hands
  `Render` of the flags at the top of the iteration to both resolvers.
- **Stale glyphs.** A block broken by the x resolver still shows its old
  glyphs to the y resolver, just as in the program.
  `Collision.StaleBufferHarmless` shows this makes no difference, because both
  resolvers also test the owner's current flag.
- **The end of the game.** The program returns from `main` on a loss or a
  win. The model records the outcome as `Lost` or `Won` instead, and `Step`
  leaves a finished state unchanged (`Game.FinishedStaysFinished`).
- **Directions.** Directions are plain integers. The y resolver returns
  `LostDir` (0) for a lost ball, as the program does.

### Behaviour worth knowing

- **At most one block per iteration.** Both resolvers probe the same cell
  `(next_y, next_x)`. If the x resolver breaks that cell's owner, the y
  resolver then reads the owner's flag as set. One iteration therefore breaks
  at most one block (`Game.AtMostOneBreakPerStep`).
- **Row 0 is the ceiling.** The top edge of the upper block row is row 0,
  which is also the ceiling. The ceiling test runs first, so a ball entering
  row 0 bounces there without breaking anything (`Collision.CeilingBeforeBlock`).
  The upper blocks break only from their sides or bottom edges.
- **Wall columns hold block sides.** The left sides of the leftmost blocks lie
  in column 0 and the right sides of the rightmost blocks in column `MaxX`.
  The wall test runs first, so those sides bounce the ball without breaking
  their block (`Collision.OuterSidesAreWalls`).
- **Order within one iteration.** On a ball move, x is resolved and committed,
  then y is resolved. A lost ball stops there, with x moved and y not.
  Otherwise y is committed and the counter reset. Then comes the win test,
  then the paddle moves. The delay counter is compared with
  `BallDelay` before it is incremented. It starts at 1, so the ball first moves on the
  4th iteration and then on every 4th one.
- **Starting column.** The ball starts in column 0, the wall column, heading
  right. The invariant allows column 0 only with that heading, and every ball
  move leaves the ball in columns 1..MaxX-1.
- **Paddle catch span.** The paddle catches the ball over 4 columns
  (`pad_x` to `pad_x + 3`) and is drawn 3 wide. It also bounces a ball moving
  upward.

## Model

| member | source | states |
|---|---|---|
| Blocks.Unbroken | breakout.c:33 | every block starts standing |
| Blocks.Break | breakout.c:149 | writing 1 to a flag breaks exactly that block; every other flag is unchanged and no flag is cleared |
| Blocks.BreakIdempotent | breakout.c:164-166 | breaking an already broken block leaves the flags as they were; the program never does so, since it breaks a block only after its guard finds the flag clear |
| Blocks.Owner | breakout.c:89-92 | the owner of a region cell is the block whose tile, laid at (row·BlockH, col·BlockW), contains the cell |
| Blocks.OwnerUnique | breakout.c:111-122 | tiles do not overlap: any block whose tile holds the cell is its owner |
| Blocks.TileGlyph | breakout.c:60-88 | the tile glyph: `.` only at top corners, `'` only at bottom corners, `-` exactly on the rest of the top and bottom rows, a vertical bar exactly on the rest of the side columns, space inside; corners win over edges |
| Blocks.Sprite | breakout.c:99-123 | a cell shows NUL iff its owner is broken; otherwise its owner's tile glyph at its offset from the tile origin; a vertical bar iff an unbroken side cell, `-` iff an unbroken top or bottom edge cell |
| Blocks.GameWon | breakout.c:178-192 | the scan reports a win iff every flag is set |
| Blocks.CountMonotone | breakout.c:164-166 | since flags are only ever set, the number of broken blocks never falls |
| Blocks.BreakCount | breakout.c:147-149 | breaking a standing block raises the broken count by exactly one |
| Blocks.AllBrokenCount | breakout.c:176-192 | all blocks are broken iff the broken count equals BlockRows·BlockCols |
| Sprites.TileOfOwner | breakout.c:111-115 | the tile `init_blocks` lays for block b covers exactly the cells that b owns |
| Sprites.MakeBlock | breakout.c:60-95 | laid at a block's origin, `make_block` gives exactly that block's cells their tile glyph and a link to the block, and leaves every other cell as it was |
| Sprites.BreakBlock | breakout.c:99-105 | `break_block` keeps every link; laid at a block's origin it writes NUL exactly over that block's cells |
| Sprites.PassIsMakeOrBreak | breakout.c:113-121 | one pass of `init_blocks`, which rewrites exactly the cells of its block (glyph and owner link for a standing block, NUL and untouched link for a broken one), is `make_block` at the block's origin when the block stands and `break_block` there when it is broken |
| Sprites.InitFromKeeps | breakout.c:109-123 | once `init_blocks` has passed a block, the later passes leave that block's cells alone |
| Sprites.InitFromLays | breakout.c:109-123 | a cell whose owner is still to be visited ends up as the pass over its owner leaves it: glyph and link if the owner stands, NUL and its old link if broken |
| Sprites.InitBlocks | breakout.c:109-123 | after `init_blocks` every cell holds what the pass over its owner leaves: glyph and link for a standing owner, NUL and the old link for a broken one |
| Sprites.InitBlocksRenders | breakout.c:109-123 | once the links are set, or while no block is broken, `init_blocks` yields exactly the on-demand glyph and owner of every cell |
| Sprites.BufferIsRender | breakout.c:257-265 | rebuilt every iteration from the zeroed buffer, the buffer always equals the on-demand rendering of the current flags; the starting buffer's contents do not matter, since on the first iteration no block is broken and every tile is laid afresh |
| Collision.DirectionX | breakout.c:141-153 | the x direction is kept or negated; flags only grow; a flag changes only when the resolver bounces off a probed cell, breaking that cell's owner |
| Collision.DirectionXGeometry | breakout.c:141-153 | a unit direction stays unit; it is negated iff the next column is a wall or the cell is a side cell of a standing block; exactly that block breaks, and only off the walls |
| Collision.DirectionY | breakout.c:158-173 | the y direction is kept, negated or 0; 0 only below row MaxY and with no flag changed; a flag changes only on a bounce off the probed cell's owner |
| Collision.DirectionYGeometry | breakout.c:158-173 | negated iff ceiling, paddle span [pad_x, pad_x+3] (either heading) or top/bottom edge of a standing block; 0 iff none of these and below row MaxY; kept iff none of these and at or above MaxY; only the edge case breaks a block |
| Collision.StaleBufferHarmless | breakout.c:147-166 | resolving against the buffer built before a break gives the same result as against a fresh one, because the owner's flag is read as well |
| Collision.NoBounceOffCornersOrGaps | breakout.c:147-167 | corner cells, interior cells and broken blocks never deflect the ball or change a flag, on either axis |
| Collision.OuterSidesAreWalls | breakout.c:141-150 | a side cell in column 0 or MaxX bounces the ball off the wall and breaks nothing, whichever blocks stand |
| Collision.FloorRowIsOpen | breakout.c:168-172 | entering row MaxY is neither a bounce nor a loss |
| Collision.CeilingBeforeBlock | breakout.c:160-166 | a ball rising into row 0 at any region column bounces off the ceiling and breaks nothing, whatever the paddle column and whichever blocks stand |
| Collision.PaddleSave | breakout.c:160-161 | a falling ball meeting the paddle at its start column is sent back up |
| Collision.LostBelowFloor | breakout.c:168-170 | below row MaxY the ball is lost whatever its heading, its column, the paddle column and the flags, and no flag changes |
| Collision.BottomEdgeBreaksOnce | breakout.c:163-167 | hitting block (0,0)'s bottom edge bounces and breaks that block alone; the same cell then deflects nothing |
| Paddle.Keypress | breakout.c:196-215 | -1 iff Left with pad_x > 1; +1 iff Right with pad_x < MaxX-3; otherwise 0; a paddle in [1, MaxX-3] stays there |
| Game.Initial | breakout.c:230-239 | the starting variables satisfy the loop invariant |
| Game.MoveBall | breakout.c:279-310 | a ball move never mends a block or moves the paddle; x advances by its old direction iff it was kept, else stays; unless lost, y does the same and the counter restarts; a lost ball keeps its row and counter and was heading below the floor |
| Game.Step | breakout.c:278-322 | finished games are fixed; flags only grow; no ball change unless the counter reached BallDelay; each axis advances by its old direction iff its resolver kept it, else it stays; won iff all blocks broken; lost only below the floor; while play goes on the paddle moves by exactly the key's decision |
| Game.ReadsInBounds | breakout.c:279-294 | from any reachable state, every buffer cell a ball move reads lies inside the buffer |
| Game.MoveBallFacts | breakout.c:278-310 | a ball move keeps the kinematic invariant and leaves the ball in columns 1..MaxX-1; it loses the ball iff it was heading down from row MaxY; x flips iff wall or side of a standing block, y flips iff ceiling, paddle span or top/bottom edge of a standing block; a struck block ends broken; the flags change only by breaking the probed cell's owner, so by at most one block |
| Game.FiringTickBounds | breakout.c:283-310 | after a ball move the ball is in columns 1..MaxX-1 and rows 1..MaxY |
| Game.StepPreservesInv | breakout.c:257-323 | one iteration keeps the invariant: unit directions, paddle in range, ball in the arena, counter in range, outcome consistent with the flags |
| Game.LostExactly | breakout.c:294-302 | the game is lost exactly on a ball move from row MaxY heading down |
| Game.AtMostOneBreakPerStep | breakout.c:285-294 | one iteration breaks at most one block and mends none |
| Game.DelayCadence | breakout.c:283-322 | the ball moves exactly when the counter is BallDelay; the counter then restarts at 1, otherwise it goes up by one |
| Game.Run | breakout.c:257-323 | any number of iterations keeps the invariant and never lowers the broken count |
| Game.PaddleStaysInRange | breakout.c:319-320 | whatever keys are pressed, the paddle stays in [1, MaxX-3] and moves at most one column per iteration |
| Game.FinishedStaysFinished | breakout.c:297-316 | once won or lost, further iterations change nothing |

## Left out

- Screen output is not modelled: `draw_board`, `print_blocks`, `mvprintw`,
  `clear`, `refresh`, `initscr`/`endwin` and the terminal modes. The glyphs
  they would draw are modelled by `Sprite` and the sprite buffer.
- Keyboard reading (`getch`, `KEY_LEFT`, `KEY_RIGHT`) is replaced by the
  `Key` input `Left | Right | NoKey`.
- Timing is not modelled: `usleep(DELAY)` and the `DELAY` constant. Only
  the delay counter is kept.
- `print_message` is not modelled. Its output text carries no game logic.
- Flags are `bool`, not `char`. The program only ever stores 0 or 1 in them.
- Integer widths are not modelled. The invariant bounds every coordinate to
  a few dozen, so C `int` cannot overflow.
- `Game.Step` does not carry the sprite buffer in its state. It uses
  `Render` of the flags instead, which `Sprites.BufferIsRender` proves equal
  to the buffer the program holds at that point.
