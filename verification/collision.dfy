/**
  The two one-axis collision resolvers. Each takes the ball's direction on its
  axis and the prospective cell (ny, nx) the ball would enter, and returns the
  new direction together with the flags after any block it broke. The y
  resolver returns direction 0 when the ball falls past the floor.

  Both read the sprite buffer `m` for the glyph and owner of the probed cell
  and the flags `f` for whether that owner is still standing, exactly as the
  program reads `block_sprites` and `*grid_member`.
 */
module Collision {
  import opened Config
  import opened Blocks
  import opened Sprites

  /** Outcome of one resolver call: the new direction and the new flags. */
  datatype Resolution = Resolution(dir: int, blocks: Flags)

  /** The direction the y resolver returns for a ball that fell through. */
  const LostDir: int := 0

  /* ---------------------------------------------------------------------- */
  /* x axis                                                                  */
  /* ---------------------------------------------------------------------- */

  /** The probed column is a side wall or beyond it. */
  predicate Wall(nx: int) {
    nx >= MaxX || nx <= 0
  }

  /** The x resolver reads the buffer at (ny, nx). */
  predicate ProbesX(ny: int, nx: int) {
    !Wall(nx) && ny < RegionH && nx < RegionW
  }

  /** Every buffer read the x resolver makes is defined. */
  predicate CanResolveX(m: SpriteMap, ny: int, nx: int) {
    WellShaped(m) && (ProbesX(ny, nx) ==> 0 <= ny && MemberValid(m, ny, nx))
  }

  /** `get_direction_x`: bounce off a side wall, or off the side of a standing
      block, which then breaks. */
  function DirectionX(dir: int, ny: int, nx: int, m: SpriteMap, f: Flags): (r: Resolution)
    requires WellSized(f) && CanResolveX(m, ny, nx)
    ensures Le(f, r.blocks)
    ensures r.dir == dir || r.dir == -dir
    ensures r.blocks != f ==>
              ProbesX(ny, nx) && r.dir == -dir && r.blocks == Break(f, m[ny][nx].member.id)
  {
    if Wall(nx) then Resolution(-dir, f)
    else if ny < RegionH && nx < RegionW
            && !Broken(f, m[ny][nx].member.id) && m[ny][nx].sprite == '|' then
      Resolution(-dir, Break(f, m[ny][nx].member.id))
    else Resolution(dir, f)
  }

  /* ---------------------------------------------------------------------- */
  /* y axis                                                                  */
  /* ---------------------------------------------------------------------- */

  predicate Ceiling(ny: int) {
    ny <= 0
  }

  /** The probed cell is on the paddle's row within [padX, padX + 3]: four
      columns, one more than the three the paddle is drawn over, and whatever
      the sign of the ball's direction. */
  predicate PaddleHit(ny: int, nx: int, padX: int) {
    ny == PadY && padX <= nx <= padX + 3
  }

  /** The y resolver reads the buffer at (ny, nx). */
  predicate ProbesY(ny: int, nx: int, padX: int) {
    !(Ceiling(ny) || PaddleHit(ny, nx, padX)) && ny < RegionH && nx < RegionW
  }

  /** Every buffer read the y resolver makes is defined. */
  predicate CanResolveY(m: SpriteMap, ny: int, nx: int, padX: int) {
    WellShaped(m) && (ProbesY(ny, nx, padX) ==> 0 <= nx && MemberValid(m, ny, nx))
  }

  /** `get_direction_y`: bounce off the ceiling or the paddle, or off the top
      or bottom of a standing block, which then breaks; report the ball lost
      when it would go below the floor. */
  function DirectionY(dir: int, ny: int, nx: int, padX: int, m: SpriteMap, f: Flags): (r: Resolution)
    requires WellSized(f) && CanResolveY(m, ny, nx, padX)
    ensures Le(f, r.blocks)
    ensures r.dir == dir || r.dir == -dir || r.dir == LostDir
    ensures r.dir == LostDir && dir != 0 ==> ny > MaxY && r.blocks == f
    ensures r.blocks != f ==>
              ProbesY(ny, nx, padX) && r.dir == -dir && r.blocks == Break(f, m[ny][nx].member.id)
  {
    if Ceiling(ny) || PaddleHit(ny, nx, padX) then Resolution(-dir, f)
    else if ny < RegionH && nx < RegionW
            && !Broken(f, m[ny][nx].member.id) && m[ny][nx].sprite == '-' then
      Resolution(-dir, Break(f, m[ny][nx].member.id))
    else if ny > MaxY then Resolution(LostDir, f)
    else Resolution(dir, f)
  }

  /* ---------------------------------------------------------------------- */
  /* What the resolvers do on the buffer the game actually holds             */
  /* ---------------------------------------------------------------------- */

  /** The x resolver on a buffer rendered from flags `f0` at the top of the
      iteration, with current flags `f` (at least as broken as `f0`): it
      bounces exactly off a wall or the side cell of a standing block, and
      breaks exactly that block in the second case. */
  lemma DirectionXGeometry(dir: int, ny: int, nx: int, f0: Flags, f: Flags)
    requires Le(f0, f)
    requires dir == 1 || dir == -1
    requires ProbesX(ny, nx) ==> 0 <= ny
    ensures CanResolveX(Render(f0), ny, nx)
    ensures var r := DirectionX(dir, ny, nx, Render(f0), f);
            && (r.dir == 1 || r.dir == -1)
            && (r.dir == -dir <==> Wall(nx) || (SideCell(ny, nx) && !Broken(f, Owner(ny, nx))))
            && r.blocks == (if !Wall(nx) && SideCell(ny, nx) && !Broken(f, Owner(ny, nx))
                            then Break(f, Owner(ny, nx)) else f)
  {
    if ProbesX(ny, nx) {
      var o := Owner(ny, nx);
      assert !Broken(f, o) ==> !Broken(f0, o);
    }
  }

  /** The y resolver on a rendered buffer: it bounces exactly off the ceiling,
      the paddle, or the top or bottom edge of a standing block (breaking that
      block in the last case only); it reports the ball lost exactly when none
      of these apply and the cell is below row `MaxY`. */
  lemma DirectionYGeometry(dir: int, ny: int, nx: int, padX: int, f0: Flags, f: Flags)
    requires Le(f0, f)
    requires dir == 1 || dir == -1
    requires ProbesY(ny, nx, padX) ==> 0 <= nx
    ensures CanResolveY(Render(f0), ny, nx, padX)
    ensures var r := DirectionY(dir, ny, nx, padX, Render(f0), f);
            var blockHit := !Ceiling(ny) && !PaddleHit(ny, nx, padX)
                            && EdgeCell(ny, nx) && !Broken(f, Owner(ny, nx));
            && (r.dir == -dir <==> Ceiling(ny) || PaddleHit(ny, nx, padX) || blockHit)
            && (r.dir == LostDir <==>
                  !(Ceiling(ny) || PaddleHit(ny, nx, padX) || blockHit) && ny > MaxY)
            && (r.dir == dir <==>
                  !(Ceiling(ny) || PaddleHit(ny, nx, padX) || blockHit) && ny <= MaxY)
            && r.blocks == (if blockHit then Break(f, Owner(ny, nx)) else f)
  {
    if ProbesY(ny, nx, padX) {
      var o := Owner(ny, nx);
      assert !Broken(f, o) ==> !Broken(f0, o);
    }
  }

  /** The buffer is rebuilt only once per iteration, so the y resolver sees
      glyphs from before the x resolver broke a block. Because both resolvers
      also test the owner's current flag, this makes no difference. */
  lemma StaleBufferHarmless(dirX: int, dirY: int, ny: int, nx: int, padX: int, f0: Flags, f: Flags)
    requires Le(f0, f)
    requires dirX == 1 || dirX == -1
    requires dirY == 1 || dirY == -1
    requires ProbesX(ny, nx) ==> 0 <= ny
    requires ProbesY(ny, nx, padX) ==> 0 <= nx
    ensures DirectionX(dirX, ny, nx, Render(f0), f) == DirectionX(dirX, ny, nx, Render(f), f)
    ensures DirectionY(dirY, ny, nx, padX, Render(f0), f) == DirectionY(dirY, ny, nx, padX, Render(f), f)
  {
    assert Le(f, f);
    DirectionXGeometry(dirX, ny, nx, f0, f);
    DirectionXGeometry(dirX, ny, nx, f, f);
    DirectionYGeometry(dirY, ny, nx, padX, f0, f);
    DirectionYGeometry(dirY, ny, nx, padX, f, f);
  }

  /** Corners, interiors and broken blocks never deflect the ball on either
      axis, and leave every flag as it was. */
  lemma NoBounceOffCornersOrGaps(dirX: int, dirY: int, ny: int, nx: int, padX: int, f: Flags)
    requires WellSized(f) && InRegion(ny, nx)
    requires dirX == 1 || dirX == -1
    requires dirY == 1 || dirY == -1
    requires CornerCell(ny, nx) || InteriorCell(ny, nx) || Broken(f, Owner(ny, nx))
    ensures !Wall(nx) ==> DirectionX(dirX, ny, nx, Render(f), f) == Resolution(dirX, f)
    ensures !Ceiling(ny) ==> DirectionY(dirY, ny, nx, padX, Render(f), f) == Resolution(dirY, f)
  {
    assert Le(f, f);
    DirectionXGeometry(dirX, ny, nx, f, f);
    DirectionYGeometry(dirY, ny, nx, padX, f, f);
  }

  /** The outer sides of the outer blocks lie in the wall columns 0 and
      `MaxX`. The wall test comes first, so a ball entering one of those side
      cells bounces off the wall and its block does not break. */
  lemma OuterSidesAreWalls(dir: int, ny: int, nx: int, f: Flags)
    requires WellSized(f) && 0 <= ny < RegionH
    requires nx == 0 || nx == MaxX
    ensures SideCell(ny, nx) <==> 0 < ny % BlockH < BlockH - 1
    ensures DirectionX(dir, ny, nx, Render(f), f) == Resolution(-dir, f)
  {
  }

  /** A ball about to enter the floor row `MaxY` is neither bounced nor lost. */
  lemma FloorRowIsOpen(dir: int, nx: int, padX: int, f: Flags)
    requires WellSized(f)
    requires dir == 1 || dir == -1
    ensures DirectionY(dir, MaxY, nx, padX, Render(f), f) == Resolution(dir, f)
  {
  }

  /* ---------------------------------------------------------------------- */
  /* Worked cases                                                            */
  /* ---------------------------------------------------------------------- */

  /** Row 0 is both the ceiling and the top edge of the first block row: the
      ceiling test comes first, so a ball rising into row 0 bounces there and
      no block breaks, whichever blocks are still standing. */
  lemma CeilingBeforeBlock(nx: int, padX: int, f: Flags)
    requires WellSized(f) && InRegion(0, nx)
    ensures DirectionY(-1, 0, nx, padX, Render(f), f) == Resolution(1, f)
  {
  }

  /** The paddle at its starting column catches a falling ball. */
  lemma PaddleSave()
    ensures DirectionY(1, PadY, StartPadX + 1, StartPadX, Render(Unbroken()), Unbroken()).dir == -1
  {
  }

  /** Below row `MaxY` the ball is lost whatever its heading, its column,
      the paddle's column and the flags, and no flag changes. */
  lemma LostBelowFloor(dir: int, ny: int, nx: int, padX: int, f: Flags)
    requires WellSized(f) && ny > MaxY
    requires dir == 1 || dir == -1
    ensures DirectionY(dir, ny, nx, padX, Render(f), f) == Resolution(LostDir, f)
  {
  }

  /** Hitting the bottom edge of block (0, 0) from below bounces the ball and
      breaks that block alone; probing the same cell again does nothing. */
  lemma BottomEdgeBreaksOnce()
    ensures var r := DirectionY(-1, BlockH - 1, 5, StartPadX, Render(Unbroken()), Unbroken());
            && r == Resolution(1, Break(Unbroken(), BlockId(0, 0)))
            && DirectionY(1, BlockH - 1, 5, StartPadX, Render(r.blocks), r.blocks)
               == Resolution(1, r.blocks)
  {
    var r := DirectionY(-1, BlockH - 1, 5, StartPadX, Render(Unbroken()), Unbroken());
    assert Sprite(Unbroken(), BlockH - 1, 5) == '-';
    assert Owner(BlockH - 1, 5) == BlockId(0, 0);
    assert Broken(r.blocks, BlockId(0, 0));
  }
}
