/**
  The block sprite buffer `block_sprites`: for every cell of the block region
  the glyph drawn there and a link to the flag of the block that owns it.
  The buffer is rebuilt from the flags at the top of every loop iteration by
  `init_blocks`; `make_block` lays one standing block's tile and sets the
  links, `break_block` blanks a broken block's tile and leaves its links alone.
 */
module Sprites {
  import opened Config
  import opened Blocks

  /** A cell's `grid_member` pointer: NULL until a tile is laid over the cell,
      then the identity of the block whose flag it points at. */
  datatype Member = Null | Ref(id: BlockId)

  /** One entry of the buffer. */
  datatype Cell = Cell(sprite: char, member: Member)

  type SpriteMap = seq<seq<Cell>>

  predicate WellShaped(m: SpriteMap) {
    |m| == RegionH && forall r :: 0 <= r < |m| ==> |m[r]| == RegionW
  }

  /** Reading `*grid_member` at (r, c) is defined: the pointer leads to a flag. */
  predicate MemberValid(m: SpriteMap, r: int, c: int)
    requires WellShaped(m) && InRegion(r, c)
  {
    m[r][c].member.Ref? && ValidId(m[r][c].member.id)
  }

  /** Every cell points at the flag of the block whose tile covers it. */
  ghost predicate Linked(m: SpriteMap) {
    && WellShaped(m)
    && forall r, c :: InRegion(r, c) ==> m[r][c].member == Ref(Owner(r, c))
  }

  /** The zero-initialised buffer before the first iteration. */
  function Blank(): (m: SpriteMap)
    ensures WellShaped(m)
  {
    seq(RegionH, _ => seq(RegionW, _ => Cell(Nul, Null)))
  }

  /** Cell (r, c) lies in the tile whose top left corner is (y, x). */
  predicate InTile(y: int, x: int, r: int, c: int) {
    y <= r < y + BlockH && x <= c < x + BlockW
  }

  /** A tile at (y, x) lies inside the buffer. */
  predicate TileFits(y: int, x: int) {
    0 <= y && y + BlockH <= RegionH && 0 <= x && x + BlockW <= RegionW
  }

  /** `make_block(y, x)`: writes the tile glyphs and points every cell of the
      tile at the flag `blocks[y / BlockH][x / BlockW]`. Laid at a block's
      origin, it gives exactly the cells that block owns their tile glyph and
      a link to it, and leaves every other cell alone. */
  function MakeBlock(m: SpriteMap, y: int, x: int): (m': SpriteMap)
    requires WellShaped(m) && TileFits(y, x)
    ensures WellShaped(m')
    ensures y % BlockH == 0 && x % BlockW == 0 ==>
              forall r, c :: InRegion(r, c) ==>
                m'[r][c] == if Owner(r, c) == BlockId(y / BlockH, x / BlockW)
                            then Cell(TileGlyph(r % BlockH, c % BlockW), Ref(Owner(r, c)))
                            else m[r][c]
  {
    var m' := seq(RegionH, r requires 0 <= r < RegionH =>
      seq(RegionW, c requires 0 <= c < RegionW =>
        if InTile(y, x, r, c) then Cell(TileGlyph(r - y, c - x), Ref(BlockId(y / BlockH, x / BlockW)))
        else m[r][c]));
    if y % BlockH == 0 && x % BlockW == 0 then TilesOfOwners(y, x); m' else m'
  }

  /** `break_block(y, x)`: writes NUL over the tile; the links are not touched.
      Laid at a block's origin, it blanks exactly the cells that block owns. */
  function BreakBlock(m: SpriteMap, y: int, x: int): (m': SpriteMap)
    requires WellShaped(m) && TileFits(y, x)
    ensures WellShaped(m')
    ensures forall r, c :: InRegion(r, c) ==> m'[r][c].member == m[r][c].member
    ensures y % BlockH == 0 && x % BlockW == 0 ==>
              forall r, c :: InRegion(r, c) ==>
                m'[r][c] == if Owner(r, c) == BlockId(y / BlockH, x / BlockW)
                            then Cell(Nul, m[r][c].member)
                            else m[r][c]
  {
    var m' := seq(RegionH, r requires 0 <= r < RegionH =>
      seq(RegionW, c requires 0 <= c < RegionW =>
        if InTile(y, x, r, c) then Cell(Nul, m[r][c].member) else m[r][c]));
    if y % BlockH == 0 && x % BlockW == 0 then TilesOfOwners(y, x); m' else m'
  }

  /** Position of a block in `init_blocks`' row-major visiting order. */
  function Index(b: BlockId): int {
    b.row * BlockCols + b.col
  }

  /** Distinct blocks are visited at distinct positions. */
  lemma IndexInjective(a: BlockId, b: BlockId)
    requires ValidId(a) && ValidId(b)
    ensures Index(a) == Index(b) <==> a == b
    ensures 0 <= Index(a) < BlockCount
  {
  }

  /** The block visited k-th by `init_blocks`. */
  function Visited(k: int): (b: BlockId)
    requires 0 <= k < BlockCount
    ensures ValidId(b) && Index(b) == k
  {
    BlockId(k / BlockCols, k % BlockCols)
  }

  /** `init_blocks` from the k-th block on, one `Pass` per block in row-major
      order: each standing block is laid with `make_block`, each broken one
      blanked with `break_block`. */
  function InitFrom(m: SpriteMap, f: Flags, k: int): (m': SpriteMap)
    requires WellShaped(m) && WellSized(f) && 0 <= k <= BlockCount
    ensures WellShaped(m')
    decreases BlockCount - k
  {
    if k == BlockCount then m
    else
      InitFrom(Pass(m, f, Visited(k)), f, k + 1)
  }

  /** `init_blocks`: every cell ends up as the pass over its owner leaves it,
      whatever the buffer held before. */
  function InitBlocks(m: SpriteMap, f: Flags): (m': SpriteMap)
    requires WellShaped(m) && WellSized(f)
    ensures WellShaped(m')
    ensures forall r, c :: InRegion(r, c) ==> m'[r][c] == Laid(m[r][c].member, f, r, c)
  {
    InitFromAll(m, f);
    InitFrom(m, f, 0)
  }

  /** The buffer as it is for flags `f` once every link is set: each cell
      shows its owner's glyph and points at its owner. */
  function Render(f: Flags): (m: SpriteMap)
    requires WellSized(f)
    ensures WellShaped(m) && Linked(m)
  {
    seq(RegionH, r requires 0 <= r < RegionH =>
      seq(RegionW, c requires 0 <= c < RegionW => Cell(Sprite(f, r, c), Ref(Owner(r, c)))))
  }

  /** What the pass over block `Owner(r, c)` leaves in cell (r, c), given the
      link the cell held before. */
  function Laid(link: Member, f: Flags, r: int, c: int): Cell
    requires WellSized(f) && InRegion(r, c)
  {
    if Broken(f, Owner(r, c)) then Cell(Nul, link)
    else Cell(Sprite(f, r, c), Ref(Owner(r, c)))
  }

  /** The tile of block b covers exactly the cells b owns. */
  lemma TileOfOwner(b: BlockId, r: int, c: int)
    requires ValidId(b) && InRegion(r, c)
    ensures InTile(b.row * BlockH, b.col * BlockW, r, c) <==> Owner(r, c) == b
  {
    if InTile(b.row * BlockH, b.col * BlockW, r, c) {
      OwnerUnique(r, c, b);
    }
  }

  /** A tile laid at a block's origin (y, x) covers exactly the cells of that
      block, and a cell's offset in it is its offset in its owner's tile. */
  lemma TilesOfOwners(y: int, x: int)
    requires TileFits(y, x) && y % BlockH == 0 && x % BlockW == 0
    ensures forall r, c {:trigger Owner(r, c)} :: InRegion(r, c) ==>
              (InTile(y, x, r, c) <==> Owner(r, c) == BlockId(y / BlockH, x / BlockW))
    ensures forall r, c {:trigger Owner(r, c)} :: InRegion(r, c) && InTile(y, x, r, c) ==>
              r - y == r % BlockH && c - x == c % BlockW
  {
    var b := BlockId(y / BlockH, x / BlockW);
    assert y == b.row * BlockH && x == b.col * BlockW;
    forall r, c | InRegion(r, c)
      ensures InTile(y, x, r, c) <==> Owner(r, c) == b
    {
      TileOfOwner(b, r, c);
    }
  }

  /** One pass of `init_blocks` over block b: every cell b owns becomes what
      `Laid` says, every other cell is kept. `PassIsMakeOrBreak` shows this is
      `make_block` at b's origin if b stands and `break_block` there if not. */
  function Pass(m: SpriteMap, f: Flags, b: BlockId): (m': SpriteMap)
    requires WellShaped(m) && WellSized(f) && ValidId(b)
    ensures WellShaped(m')
  {
    seq(RegionH, r requires 0 <= r < RegionH =>
      seq(RegionW, c requires 0 <= c < RegionW =>
        if Owner(r, c) == b then Laid(m[r][c].member, f, r, c) else m[r][c]))
  }

  /** The pass is `make_block` at b's origin when b stands and `break_block`
      there when it is broken. */
  lemma PassIsMakeOrBreak(m: SpriteMap, f: Flags, b: BlockId)
    requires WellShaped(m) && WellSized(f) && ValidId(b)
    ensures Pass(m, f, b) == if !Broken(f, b) then MakeBlock(m, b.row * BlockH, b.col * BlockW)
                             else BreakBlock(m, b.row * BlockH, b.col * BlockW)
  {
    var y, x := b.row * BlockH, b.col * BlockW;
    assert y / BlockH == b.row && x / BlockW == b.col && y % BlockH == 0 && x % BlockW == 0;
    var p := Pass(m, f, b);
    var q := if !Broken(f, b) then MakeBlock(m, y, x) else BreakBlock(m, y, x);
    forall r | 0 <= r < RegionH
      ensures p[r] == q[r]
    {
      forall c | 0 <= c < RegionW
        ensures p[r][c] == q[r][c]
      {
        assert InRegion(r, c);
      }
    }
  }

  /** After visiting blocks k.. of `init_blocks`, a cell whose owner comes
      earlier is untouched. */
  lemma {:induction false} InitFromKeeps(m: SpriteMap, f: Flags, k: int, r: int, c: int)
    requires WellShaped(m) && WellSized(f) && 0 <= k <= BlockCount && InRegion(r, c)
    requires Index(Owner(r, c)) < k
    ensures InitFrom(m, f, k)[r][c] == m[r][c]
    decreases BlockCount - k
  {
    if k < BlockCount {
      var b := Visited(k);
      var next := Pass(m, f, b);
      InitFromKeeps(next, f, k + 1, r, c);
      IndexInjective(Owner(r, c), b);
    }
  }

  /** After visiting blocks k.. of `init_blocks`, a cell whose owner is
      visited is laid from its owner's flag. */
  lemma {:induction false} InitFromLays(m: SpriteMap, f: Flags, k: int, r: int, c: int)
    requires WellShaped(m) && WellSized(f) && 0 <= k <= BlockCount && InRegion(r, c)
    requires Index(Owner(r, c)) >= k
    ensures InitFrom(m, f, k)[r][c] == Laid(m[r][c].member, f, r, c)
    decreases BlockCount - k
  {
    var b := Visited(k);
    var next := Pass(m, f, b);
    IndexInjective(Owner(r, c), b);
    if Index(Owner(r, c)) == k {
      InitFromKeeps(next, f, k + 1, r, c);
    } else {
      InitFromLays(next, f, k + 1, r, c);
    }
  }

  /** `InitFromLays` for every cell of a whole `init_blocks` run. */
  lemma InitFromAll(m: SpriteMap, f: Flags)
    requires WellShaped(m) && WellSized(f)
    ensures forall r, c :: InRegion(r, c) ==> InitFrom(m, f, 0)[r][c] == Laid(m[r][c].member, f, r, c)
  {
    forall r, c | InRegion(r, c)
      ensures InitFrom(m, f, 0)[r][c] == Laid(m[r][c].member, f, r, c)
    {
      InitFromLays(m, f, 0, r, c);
    }
  }

  /** `init_blocks` yields exactly `Render(f)` as soon as the links are right:
      either they were set on an earlier iteration, or no block is broken yet
      and every tile is laid afresh. */
  lemma InitBlocksRenders(m: SpriteMap, f: Flags)
    requires WellShaped(m) && WellSized(f)
    requires Linked(m) || NoneBroken(f)
    ensures InitBlocks(m, f) == Render(f)
  {
    var m' := InitBlocks(m, f);
    var want := Render(f);
    forall r | 0 <= r < RegionH
      ensures m'[r] == want[r]
    {
      forall c | 0 <= c < RegionW
        ensures m'[r][c] == want[r][c]
      {
        assert m'[r][c] == Laid(m[r][c].member, f, r, c);
      }
    }
  }

  /** The buffer after `init_blocks` has run on every iteration so far,
      `history` holding the flags at the top of each iteration in order. */
  function Buffer(history: seq<Flags>): (m: SpriteMap)
    requires forall k :: 0 <= k < |history| ==> WellSized(history[k])
    ensures WellShaped(m)
  {
    if history == [] then Blank()
    else InitBlocks(Buffer(history[..|history| - 1]), history[|history| - 1])
  }

  /** From the first iteration on, the buffer equals `Render` of the current
      flags, because no block is broken on the first iteration. */
  lemma {:induction false} BufferIsRender(history: seq<Flags>)
    requires |history| > 0
    requires forall k :: 0 <= k < |history| ==> WellSized(history[k])
    requires NoneBroken(history[0])
    ensures Buffer(history) == Render(history[|history| - 1])
  {
    var prefix := history[..|history| - 1];
    if |prefix| == 0 {
      InitBlocksRenders(Blank(), history[0]);
    } else {
      BufferIsRender(prefix);
      InitBlocksRenders(Buffer(prefix), history[|history| - 1]);
    }
  }
}
