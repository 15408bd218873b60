/**
  The fixed geometry and timing constants of the game. Nothing here is
  configurable at run time: the arena, the block layout and the ball's speed
  ratio are compiled into the program.
 */
module Config {

  /** The ball moves once every `BallDelay` iterations of the main loop. */
  const BallDelay: int := 4

  /** Board width: columns 0 and `MaxX` are the side walls. */
  const MaxX: int := 67

  /** Board height: the ball is lost once it would move below row `MaxY`. */
  const MaxY: int := 24

  /** The row the paddle is drawn on. */
  const PadY: int := 23

  /** Width and height of one block, in cells. */
  const BlockW: int := 17
  const BlockH: int := 4

  /** Declared spacing between blocks; no layout computation ever uses it,
      so the block tiles are packed edge to edge. */
  const BlockSp: int := 1

  /** The blocks form `BlockRows` rows of `BlockCols` blocks. */
  const BlockRows: int := 2
  const BlockCols: int := 4

  /** Extent of the sprite buffer that holds the block tiles. */
  const RegionH: int := BlockRows * BlockH
  const RegionW: int := BlockCols * BlockW

  /** Number of blocks in the game. */
  const BlockCount: int := BlockRows * BlockCols

  /** Where the paddle's left end starts. */
  const StartPadX: int := 20
}
