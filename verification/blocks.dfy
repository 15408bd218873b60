/**
  The block grid: one flag per block telling whether it has been broken, the
  glyph each cell of a block's tile shows, and which block owns a cell.
  Ownership is computed from the cell's position (row / BlockH, col / BlockW)
  instead of through a pointer into the flag array.
 */
module Blocks {
  import opened Config

  /** The `blocks` array: `f[i][j]` is true once block (i, j) is broken. */
  type Flags = seq<seq<bool>>

  /** Identity of one block: its row and column in the flag grid. */
  datatype BlockId = BlockId(row: int, col: int)

  /** The glyph of a cell whose block is broken: the buffer holds a NUL there. */
  const Nul: char := '\0'

  predicate WellSized(f: Flags) {
    |f| == BlockRows && forall i :: 0 <= i < |f| ==> |f[i]| == BlockCols
  }

  predicate ValidId(b: BlockId) {
    0 <= b.row < BlockRows && 0 <= b.col < BlockCols
  }

  predicate Broken(f: Flags, b: BlockId)
    requires WellSized(f) && ValidId(b)
  {
    f[b.row][b.col]
  }

  /** The flags at the start of a game: every block standing. */
  function Unbroken(): (f: Flags)
    ensures WellSized(f)
    ensures forall b :: ValidId(b) ==> !Broken(f, b)
  {
    seq(BlockRows, _ => seq(BlockCols, _ => false))
  }

  ghost predicate NoneBroken(f: Flags)
    requires WellSized(f)
  {
    forall b :: ValidId(b) ==> !Broken(f, b)
  }

  /** The win condition: every block is broken. */
  predicate AllBroken(f: Flags)
    requires WellSized(f)
  {
    forall i, j :: 0 <= i < BlockRows && 0 <= j < BlockCols ==> f[i][j]
  }

  /** `g` has every block broken that `f` has: flags only ever go from 0 to 1. */
  ghost predicate Le(f: Flags, g: Flags) {
    && WellSized(f) && WellSized(g)
    && forall b :: ValidId(b) && Broken(f, b) ==> Broken(g, b)
  }

  /** Writing 1 into one block's flag. */
  function Break(f: Flags, b: BlockId): (g: Flags)
    requires WellSized(f) && ValidId(b)
    ensures WellSized(g) && Le(f, g)
    ensures Broken(g, b)
    ensures forall b' :: ValidId(b') && b' != b ==> Broken(g, b') == Broken(f, b')
  {
    f[b.row := f[b.row][b.col := true]]
  }

  /** Breaking an already broken block changes nothing. */
  lemma BreakIdempotent(f: Flags, b: BlockId)
    requires WellSized(f) && ValidId(b) && Broken(f, b)
    ensures Break(f, b) == f
  {
    assert f[b.row][b.col := true] == f[b.row];
  }

  /* ---------------------------------------------------------------------- */
  /* Cells and owners                                                        */
  /* ---------------------------------------------------------------------- */

  /** The cells covered by the block tiles. */
  predicate InRegion(r: int, c: int) {
    0 <= r < RegionH && 0 <= c < RegionW
  }

  /** The block whose tile covers cell (r, c). Tiles sit at origins
      (row * BlockH, col * BlockW) with no gap between them, so the owner is
      the unique block whose tile contains the cell. */
  function Owner(r: int, c: int): (b: BlockId)
    requires InRegion(r, c)
    ensures ValidId(b)
    ensures b.row * BlockH <= r < b.row * BlockH + BlockH
    ensures b.col * BlockW <= c < b.col * BlockW + BlockW
  {
    BlockId(r / BlockH, c / BlockW)
  }

  /** No two blocks' tiles overlap: a block whose tile holds (r, c) is its owner. */
  lemma OwnerUnique(r: int, c: int, b: BlockId)
    requires InRegion(r, c) && ValidId(b)
    requires b.row * BlockH <= r < b.row * BlockH + BlockH
    requires b.col * BlockW <= c < b.col * BlockW + BlockW
    ensures Owner(r, c) == b
  {
  }

  /** The position classes of a cell inside its block's tile. */
  predicate CornerCell(r: int, c: int) {
    && InRegion(r, c)
    && (r % BlockH == 0 || r % BlockH == BlockH - 1)
    && (c % BlockW == 0 || c % BlockW == BlockW - 1)
  }

  predicate EdgeCell(r: int, c: int) {
    && InRegion(r, c)
    && (r % BlockH == 0 || r % BlockH == BlockH - 1)
    && 0 < c % BlockW < BlockW - 1
  }

  predicate SideCell(r: int, c: int) {
    && InRegion(r, c)
    && 0 < r % BlockH < BlockH - 1
    && (c % BlockW == 0 || c % BlockW == BlockW - 1)
  }

  predicate InteriorCell(r: int, c: int) {
    && InRegion(r, c)
    && 0 < r % BlockH < BlockH - 1
    && 0 < c % BlockW < BlockW - 1
  }

  /** The glyph `make_block` writes at offset (i, j) of a tile. The corner test
      runs before the edge tests, so corners win over edges. */
  function TileGlyph(i: int, j: int): (g: char)
    requires 0 <= i < BlockH && 0 <= j < BlockW
    ensures g == '.' <==> i == 0 && (j == 0 || j == BlockW - 1)
    ensures g == '\'' <==> i == BlockH - 1 && (j == 0 || j == BlockW - 1)
    ensures g == '-' <==> (i == 0 || i == BlockH - 1) && 0 < j < BlockW - 1
    ensures g == '|' <==> 0 < i < BlockH - 1 && (j == 0 || j == BlockW - 1)
    ensures g == ' ' <==> 0 < i < BlockH - 1 && 0 < j < BlockW - 1
  {
    if i == 0 then
      (if j == 0 || j == BlockW - 1 then '.' else '-')
    else if i == BlockH - 1 then
      (if j == 0 || j == BlockW - 1 then '\'' else '-')
    else if j == 0 || j == BlockW - 1 then '|'
    else ' '
  }

  /** The glyph cell (r, c) shows for the flags `f`: its owner's tile glyph,
      or NUL once the owner is broken. */
  function Sprite(f: Flags, r: int, c: int): (g: char)
    requires WellSized(f) && InRegion(r, c)
    ensures g == Nul <==> Broken(f, Owner(r, c))
    ensures g == '|' <==> SideCell(r, c) && !Broken(f, Owner(r, c))
    ensures g == '-' <==> EdgeCell(r, c) && !Broken(f, Owner(r, c))
    ensures g == '.' || g == '\'' <==> CornerCell(r, c) && !Broken(f, Owner(r, c))
    ensures g == ' ' <==> InteriorCell(r, c) && !Broken(f, Owner(r, c))
    ensures !Broken(f, Owner(r, c)) ==>
              g == TileGlyph(r - Owner(r, c).row * BlockH, c - Owner(r, c).col * BlockW)
  {
    if Broken(f, Owner(r, c)) then Nul else TileGlyph(r % BlockH, c % BlockW)
  }

  /* ---------------------------------------------------------------------- */
  /* The win test                                                            */
  /* ---------------------------------------------------------------------- */

  /** `game_won`: scans every flag, remembering whether a 0 was seen. */
  method GameWon(f: Flags) returns (won: bool)
    requires WellSized(f)
    ensures won <==> AllBroken(f)
  {
    var zeroSeen := false;
    var i := 0;
    while i < BlockRows
      invariant 0 <= i <= BlockRows
      invariant zeroSeen <==> exists a, k :: 0 <= a < i && 0 <= k < BlockCols && !f[a][k]
    {
      var j := 0;
      while j < BlockCols
        invariant 0 <= j <= BlockCols
        invariant zeroSeen <==>
          exists a, k :: 0 <= a < BlockRows && 0 <= k < BlockCols && (a < i || (a == i && k < j)) && !f[a][k]
      {
        if !f[i][j] {
          zeroSeen := true;
        }
        j := j + 1;
      }
      i := i + 1;
    }
    won := !zeroSeen;
  }

  /* ---------------------------------------------------------------------- */
  /* Counting broken blocks                                                  */
  /* ---------------------------------------------------------------------- */

  /** Number of true flags in one row. */
  function CountTrue(s: seq<bool>): (n: nat)
    ensures n <= |s|
    ensures n == |s| <==> forall k :: 0 <= k < |s| ==> s[k]
  {
    if s == [] then 0
    else
      assert forall k :: 0 < k < |s| ==> s[k] == s[1..][k - 1];
      (if s[0] then 1 else 0) + CountTrue(s[1..])
  }

  /** Number of broken blocks: the true flags of the grid, row by row. */
  function BrokenCount(f: Flags): nat {
    if f == [] then 0 else CountTrue(f[0]) + BrokenCount(f[1..])
  }

  lemma {:induction false} CountTrueMono(a: seq<bool>, b: seq<bool>)
    requires |a| == |b|
    requires forall k :: 0 <= k < |a| && a[k] ==> b[k]
    ensures CountTrue(a) <= CountTrue(b)
  {
    if a != [] {
      CountTrueMono(a[1..], b[1..]);
    }
  }

  lemma {:induction false} CountRowsMono(f: seq<seq<bool>>, g: seq<seq<bool>>)
    requires |f| == |g|
    requires forall i :: 0 <= i < |f| ==> |f[i]| == |g[i]|
    requires forall i, k :: 0 <= i < |f| && 0 <= k < |f[i]| && f[i][k] ==> g[i][k]
    ensures BrokenCount(f) <= BrokenCount(g)
  {
    if f != [] {
      CountTrueMono(f[0], g[0]);
      CountRowsMono(f[1..], g[1..]);
    }
  }

  lemma {:induction false} CountTrueSet(s: seq<bool>, k: int)
    requires 0 <= k < |s| && !s[k]
    ensures CountTrue(s[k := true]) == CountTrue(s) + 1
  {
    if k == 0 {
      assert s[k := true][1..] == s[1..];
    } else {
      assert s[k := true][1..] == s[1..][k - 1 := true];
      CountTrueSet(s[1..], k - 1);
    }
  }

  lemma {:induction false} CountRowsSet(f: seq<seq<bool>>, i: int, k: int)
    requires 0 <= i < |f| && 0 <= k < |f[i]| && !f[i][k]
    ensures BrokenCount(f[i := f[i][k := true]]) == BrokenCount(f) + 1
  {
    if i == 0 {
      assert f[i := f[i][k := true]][1..] == f[1..];
      CountTrueSet(f[0], k);
    } else {
      assert f[i := f[i][k := true]][1..] == f[1..][i - 1 := f[1..][i - 1][k := true]];
      CountRowsSet(f[1..], i - 1, k);
    }
  }

  lemma {:induction false} CountRowsFull(f: seq<seq<bool>>)
    requires forall i :: 0 <= i < |f| ==> |f[i]| == BlockCols
    ensures BrokenCount(f) <= |f| * BlockCols
    ensures BrokenCount(f) == |f| * BlockCols <==>
              forall i, k :: 0 <= i < |f| && 0 <= k < BlockCols ==> f[i][k]
  {
    if f != [] {
      CountRowsFull(f[1..]);
      assert forall i, k :: 0 < i < |f| && 0 <= k < BlockCols ==> f[i][k] == f[1..][i - 1][k];
    }
  }

  /** Flags only grow, so the broken count never falls. */
  lemma CountMonotone(f: Flags, g: Flags)
    requires Le(f, g)
    ensures BrokenCount(f) <= BrokenCount(g)
  {
    forall i, k | 0 <= i < |f| && 0 <= k < |f[i]| && f[i][k]
      ensures g[i][k]
    {
      assert Broken(f, BlockId(i, k));
    }
    CountRowsMono(f, g);
  }

  /** Breaking a standing block raises the count by exactly one. */
  lemma BreakCount(f: Flags, b: BlockId)
    requires WellSized(f) && ValidId(b) && !Broken(f, b)
    ensures BrokenCount(Break(f, b)) == BrokenCount(f) + 1
  {
    CountRowsSet(f, b.row, b.col);
  }

  /** The game is won exactly when all `BlockCount` blocks are broken. */
  lemma AllBrokenCount(f: Flags)
    requires WellSized(f)
    ensures AllBroken(f) <==> BrokenCount(f) == BlockCount
    ensures BrokenCount(f) <= BlockCount
  {
    CountRowsFull(f);
    if AllBroken(f) {
      forall i, k | 0 <= i < |f| && 0 <= k < BlockCols
        ensures f[i][k]
      {
        assert Broken(f, BlockId(i, k));
      }
    }
  }
}
