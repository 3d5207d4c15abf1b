// The grid placer of the main screen: row-major first-fit placement of one slide's blocks
// into a 4 x 2 occupancy grid, the pixel geometry of each placed block, and the slide height.

module Placement {
  import opened Types
  import opened Grid

  /** A block together with the grid cell its top-left corner was put on. */
  datatype Placement = Placement(block: Block, row: int, col: int)

  /** Integer stand-ins for the screen-dependent `cellSize`, `margin` and centring offset `offsetX`. */
  datatype Geometry = Geometry(cellSize: int, margin: int, offsetX: int)

  /** What `arrangeBlocksInSlide` pushes: the block's id with pixel position and pixel size
      (the spread `{...block, left, top, width, height}` overwrites the cell size). */
  datatype Arranged = Arranged(id: int, left: int, top: int, width: int, height: int)

  predicate Covers(p: Placement, r: int, c: int)
  {
    InRect(p.row, p.col, p.block.width, p.block.height, r, c)
  }

  /** The content of grid cell (r, c) after marking every placement of `placed` in turn:
      the id of the last placement that covers the cell, or None (`null`). */
  function Owner(placed: seq<Placement>, r: int, c: int): Option<int>
  {
    if placed == [] then None
    else if Covers(placed[|placed| - 1], r, c) then Some(placed[|placed| - 1].block.id)
    else Owner(placed[..|placed| - 1], r, c)
  }

  /** `canPlace`: every cell of the h x w rectangle at (row, col) is still free. */
  predicate Fits(placed: seq<Placement>, row: int, col: int, w: int, h: int)
  {
    forall r, c :: row <= r < row + h && col <= c < col + w ==> Owner(placed, r, c).None?
  }

  /** The candidate top-left positions scanned for a w x h block. */
  predicate Candidate(row: int, col: int, w: int, h: int)
  {
    0 <= row <= Rows - h && 0 <= col <= Columns - w
  }

  /** The column loop of one row: the first column from `col` on where the block fits. */
  function ScanCols(placed: seq<Placement>, w: int, h: int, row: int, col: int): (r: Option<Spot>)
    requires 0 <= col
    decreases Columns - w - col + 1
    ensures r.Some? ==> r.value.row == row && col <= r.value.col <= Columns - w &&
                        Fits(placed, row, r.value.col, w, h)
    ensures r.Some? ==> forall c :: col <= c < r.value.col ==> !Fits(placed, row, c, w, h)
    ensures r.None? ==> forall c :: col <= c <= Columns - w ==> !Fits(placed, row, c, w, h)
  {
    if col > Columns - w then None
    else if Fits(placed, row, col, w, h) then Some(Spot(row, col))
    else ScanCols(placed, w, h, row, col + 1)
  }

  /** The row loop: the first position, in row-major order from row `row` on, where the block fits. */
  function ScanRows(placed: seq<Placement>, w: int, h: int, row: int): (r: Option<Spot>)
    requires 0 <= row
    decreases Rows - h - row + 1
    ensures r.Some? ==> row <= r.value.row && Candidate(r.value.row, r.value.col, w, h) &&
                        Fits(placed, r.value.row, r.value.col, w, h)
    ensures r.Some? ==> forall rr, c :: (row <= rr && Candidate(rr, c, w, h) &&
                                        Before(rr, c, r.value.row, r.value.col)) ==> !Fits(placed, rr, c, w, h)
    ensures r.None? ==> forall rr, c :: row <= rr && Candidate(rr, c, w, h) ==> !Fits(placed, rr, c, w, h)
  {
    if row > Rows - h then None
    else match ScanCols(placed, w, h, row, 0)
      case Some(s) => Some(s)
      case None => ScanRows(placed, w, h, row + 1)
  }

  /** The first free position of the block in row-major order, or None when the block fits nowhere. */
  function FirstFit(placed: seq<Placement>, b: Block): (r: Option<Spot>)
    ensures r.Some? ==> Candidate(r.value.row, r.value.col, b.width, b.height) &&
                        Fits(placed, r.value.row, r.value.col, b.width, b.height)
    ensures r.Some? ==> forall row, col :: (Candidate(row, col, b.width, b.height) &&
                                           Before(row, col, r.value.row, r.value.col)) ==>
                                            !Fits(placed, row, col, b.width, b.height)
    ensures r.None? <==> forall row, col :: Candidate(row, col, b.width, b.height) ==>
                                              !Fits(placed, row, col, b.width, b.height)
  {
    ScanRows(placed, b.width, b.height, 0)
  }

  /** The placements made for `blocks`, in order; a block that fits nowhere is left out. */
  function Place(blocks: seq<Block>): seq<Placement>
  {
    if blocks == [] then []
    else
      var prev := Place(blocks[..|blocks| - 1]);
      var b := blocks[|blocks| - 1];
      match FirstFit(prev, b)
      case Some(s) => prev + [Placement(b, s.row, s.col)]
      case None => prev
  }

  /** Pixel width (or height) of a block spanning `cells` cells. */
  function PixelSpan(cells: int, g: Geometry): int
  {
    cells * g.cellSize + (cells - 1) * g.margin
  }

  function Render(p: Placement, g: Geometry): Arranged
  {
    Arranged(p.block.id, g.offsetX + p.col * (g.cellSize + g.margin), p.row * (g.cellSize + g.margin),
             PixelSpan(p.block.width, g), PixelSpan(p.block.height, g))
  }

  function RenderAll(placed: seq<Placement>, g: Geometry): (r: seq<Arranged>)
    ensures |r| == |placed|
    ensures forall i :: 0 <= i < |r| ==> r[i] == Render(placed[i], g)
  {
    if placed == [] then [] else RenderAll(placed[..|placed| - 1], g) + [Render(placed[|placed| - 1], g)]
  }

  /** The top-left position of `block` found by the `row`/`col` loops, given that the grid
      holds exactly the marks of `placed`. */
  method FindSpot(grid: array2<Option<int>>, block: Block, ghost placed: seq<Placement>)
    returns (found: bool, row: int, col: int)
    requires grid.Length0 == Rows && grid.Length1 == Columns
    requires forall r, c :: 0 <= r < Rows && 0 <= c < Columns ==> grid[r, c] == Owner(placed, r, c)
    ensures found <==> FirstFit(placed, block).Some?
    ensures found ==> FirstFit(placed, block) == Some(Spot(row, col))
  {
    row := 0;
    while row <= Rows - block.height
      invariant 0 <= row
      invariant FirstFit(placed, block) == ScanRows(placed, block.width, block.height, row)
      decreases Rows - block.height - row + 1
    {
      col := 0;
      while col <= Columns - block.width
        invariant 0 <= col
        invariant ScanCols(placed, block.width, block.height, row, 0) ==
                  ScanCols(placed, block.width, block.height, row, col)
        decreases Columns - block.width - col + 1
      {
        var canPlace := RectFree(grid, row, row + block.height, col, col + block.width);
        assert canPlace <==> Fits(placed, row, col, block.width, block.height);
        if canPlace {
          found := true;
          return;
        }
        col := col + 1;
      }
      row := row + 1;
    }
    found, row, col := false, 0, 0;
  }

  /** Writes `id` into every cell of the h x w rectangle at (row, col). */
  method Mark(grid: array2<Option<int>>, row: int, col: int, w: int, h: int, id: int)
    requires grid.Length0 == Rows && grid.Length1 == Columns
    requires Candidate(row, col, w, h)
    modifies grid
    ensures forall r, c :: 0 <= r < Rows && 0 <= c < Columns ==>
              grid[r, c] == if InRect(row, col, w, h, r, c) then Some(id) else old(grid[r, c])
  {
    var r := row;
    while r < row + h
      invariant r == row || row < r <= row + h
      invariant forall i, j :: 0 <= i < Rows && 0 <= j < Columns ==>
                  grid[i, j] == if InRect(row, col, w, r - row, i, j) then Some(id) else old(grid[i, j])
      decreases row + h - r
    {
      var c := col;
      while c < col + w
        invariant c == col || col < c <= col + w
        invariant forall i, j :: 0 <= i < Rows && 0 <= j < Columns ==>
                    grid[i, j] == if InRect(row, col, w, r - row, i, j) || (i == r && col <= j < c)
                                  then Some(id) else old(grid[i, j])
        decreases col + w - c
      {
        grid[r, c] := Some(id);
        c := c + 1;
      }
      r := r + 1;
    }
  }

  /** `arrangeBlocksInSlide`: place the blocks in order at their first free position,
      skip those that fit nowhere, and give each placed one its pixel geometry. */
  method ArrangeBlocksInSlide(blocks: seq<Block>, g: Geometry) returns (arranged: seq<Arranged>)
    ensures arranged == RenderAll(Place(blocks), g)
  {
    var grid := new Option<int>[Rows, Columns]((r, c) => None);
    arranged := [];
    ghost var placed: seq<Placement> := [];
    for k := 0 to |blocks|
      invariant placed == Place(blocks[..k])
      invariant arranged == RenderAll(placed, g)
      invariant forall r, c :: 0 <= r < Rows && 0 <= c < Columns ==> grid[r, c] == Owner(placed, r, c)
    {
      var block := blocks[k];
      assert blocks[..k + 1][..k] == blocks[..k];
      var placedHere, row, col := FindSpot(grid, block, placed);
      if placedHere {
        Mark(grid, row, col, block.width, block.height, block.id);
        var p := Placement(block, row, col);
        assert (placed + [p])[..|placed|] == placed;
        placed := placed + [p];
        arranged := arranged + [Render(p, g)];
      }
    }
    assert blocks[..|blocks|] == blocks;
  }

  /** `calculateSlideHeight`: the largest pixel height of the slide's blocks plus two margins.
      `Math.max()` of no arguments is -Infinity, shown as None. */
  function SlideHeight(blocks: seq<Block>, g: Geometry): (r: Option<int>)
    ensures r.None? <==> blocks == []
    ensures r.Some? ==> forall i :: 0 <= i < |blocks| ==> PixelSpan(blocks[i].height, g) + 2 * g.margin <= r.value
    ensures r.Some? ==> exists i :: 0 <= i < |blocks| && r.value == PixelSpan(blocks[i].height, g) + 2 * g.margin
  {
    if blocks == [] then None
    else
      var here := PixelSpan(blocks[0].height, g) + 2 * g.margin;
      match SlideHeight(blocks[1..], g)
      case None => Some(here)
      case Some(rest) =>
        assert forall i :: 1 <= i < |blocks| ==> blocks[i] == blocks[1..][i - 1];
        Some(if here >= rest then here else rest)
  }

  /** Every placement lies on the canvas: rows [row, row + h) within [0, 4) and columns
      [col, col + w) within [0, 2) (for a block of positive size). */
  lemma {:induction false} PlacedInBounds(blocks: seq<Block>, i: nat)
    requires i < |Place(blocks)|
    ensures var p := Place(blocks)[i];
            Candidate(p.row, p.col, p.block.width, p.block.height) &&
            forall r, c :: Covers(p, r, c) ==> 0 <= r < Rows && 0 <= c < Columns
  {
    var prev := Place(blocks[..|blocks| - 1]);
    if i < |prev| {
      PlacedInBounds(blocks[..|blocks| - 1], i);
    }
  }

  /** A cell covered by some placement of the list is marked (not null). */
  lemma {:induction false} CoveredIsMarked(placed: seq<Placement>, i: nat, r: int, c: int)
    requires i < |placed| && Covers(placed[i], r, c)
    ensures Owner(placed, r, c).Some?
  {
    if i < |placed| - 1 && !Covers(placed[|placed| - 1], r, c) {
      CoveredIsMarked(placed[..|placed| - 1], i, r, c);
    }
  }

  /** A marked cell is covered by some placement of the list, and carries the id of the
      last one covering it. */
  lemma {:induction false} MarkedIsCovered(placed: seq<Placement>, r: int, c: int)
    requires Owner(placed, r, c).Some?
    ensures exists i :: 0 <= i < |placed| && Covers(placed[i], r, c) && Owner(placed, r, c) == Some(placed[i].block.id)
  {
    if !Covers(placed[|placed| - 1], r, c) {
      MarkedIsCovered(placed[..|placed| - 1], r, c);
      var i :| 0 <= i < |placed| - 1 && Covers(placed[..|placed| - 1][i], r, c) &&
               Owner(placed[..|placed| - 1], r, c) == Some(placed[..|placed| - 1][i].block.id);
      assert placed[..|placed| - 1][i] == placed[i];
    }
  }

  /** No two placed rectangles share a cell. */
  lemma {:induction false} PlacedDisjoint(blocks: seq<Block>, i: nat, j: nat, r: int, c: int)
    requires i < j < |Place(blocks)|
    ensures !(Covers(Place(blocks)[i], r, c) && Covers(Place(blocks)[j], r, c))
  {
    var prev := Place(blocks[..|blocks| - 1]);
    var b := blocks[|blocks| - 1];
    assert forall k :: 0 <= k < |prev| ==> Place(blocks)[k] == prev[k];
    if j < |prev| {
      PlacedDisjoint(blocks[..|blocks| - 1], i, j, r, c);
    } else if Covers(Place(blocks)[i], r, c) && Covers(Place(blocks)[j], r, c) {
      var p := Place(blocks)[j];
      assert FirstFit(prev, b) == Some(Spot(p.row, p.col));
      CoveredIsMarked(prev, i, r, c);
    }
  }

  /** The grid cells marked with a block's id are exactly that block's rectangle: a covered
      cell holds the id of the one placement covering it, an uncovered cell stays null. */
  lemma PlacedCellsOwned(blocks: seq<Block>, i: nat, r: int, c: int)
    requires i < |Place(blocks)|
    ensures Covers(Place(blocks)[i], r, c) ==> Owner(Place(blocks), r, c) == Some(Place(blocks)[i].block.id)
    ensures Owner(Place(blocks), r, c).None? <==> forall k :: 0 <= k < |Place(blocks)| ==> !Covers(Place(blocks)[k], r, c)
  {
    var placed := Place(blocks);
    if Owner(placed, r, c).Some? {
      MarkedIsCovered(placed, r, c);
      var k :| 0 <= k < |placed| && Covers(placed[k], r, c) && Owner(placed, r, c) == Some(placed[k].block.id);
      if Covers(placed[i], r, c) && k != i {
        if i < k { PlacedDisjoint(blocks, i, k, r, c); } else { PlacedDisjoint(blocks, k, i, r, c); }
      }
    } else {
      forall k | 0 <= k < |placed| ensures !Covers(placed[k], r, c) {
        if Covers(placed[k], r, c) { CoveredIsMarked(placed, k, r, c); }
      }
    }
  }

  /** Placing more blocks never moves the earlier ones: the placements of a prefix are a
      prefix of the placements of the whole list, so the output keeps input order. */
  lemma {:induction false} PlacePrefixStable(blocks: seq<Block>, k: nat)
    requires k <= |blocks|
    ensures Place(blocks[..k]) <= Place(blocks)
  {
    if k < |blocks| {
      var init := blocks[..|blocks| - 1];
      assert init[..k] == blocks[..k];
      PlacePrefixStable(init, k);
    } else {
      assert blocks[..k] == blocks;
    }
  }

  /** Each placement is of a block of the input, and the block placed last comes from the
      latest input position that was placed. */
  lemma {:induction false} PlacedFromInput(blocks: seq<Block>, i: nat)
    requires i < |Place(blocks)|
    ensures Place(blocks)[i].block in blocks
  {
    var init := blocks[..|blocks| - 1];
    if i < |Place(init)| {
      PlacedFromInput(init, i);
      assert Place(blocks)[i] == Place(init)[i];
    }
  }

  /** A block taller than 4 rows or wider than 2 columns is never placed: it is dropped. */
  lemma Unplaceable(placed: seq<Placement>, b: Block)
    requires b.height > Rows || b.width > Columns
    ensures FirstFit(placed, b).None?
  {
  }

  /** ... so appending such a block to a slide leaves the placements unchanged. */
  lemma DroppedBlock(blocks: seq<Block>, b: Block)
    requires b.height > Rows || b.width > Columns
    ensures Place(blocks + [b]) == Place(blocks)
  {
    assert (blocks + [b])[..|blocks|] == blocks;
    Unplaceable(Place(blocks), b);
  }

  /** Appending a block that fits puts it last, at its first free position. */
  lemma PlaceSnoc(blocks: seq<Block>, b: Block, s: Spot)
    requires FirstFit(Place(blocks), b) == Some(s)
    ensures Place(blocks + [b]) == Place(blocks) + [Placement(b, s.row, s.col)]
  {
    assert (blocks + [b])[..|blocks|] == blocks;
  }

  /** The row-major first-fit position is determined by its specification: a candidate
      position that fits, with every earlier candidate blocked, is the one chosen. */
  lemma FirstFitIs(placed: seq<Placement>, b: Block, row: int, col: int)
    requires Candidate(row, col, b.width, b.height) && Fits(placed, row, col, b.width, b.height)
    requires forall rr, cc :: Candidate(rr, cc, b.width, b.height) && Before(rr, cc, row, col) ==>
                                !Fits(placed, rr, cc, b.width, b.height)
    ensures FirstFit(placed, b) == Some(Spot(row, col))
  {
    var r := FirstFit(placed, b);
    assert r.Some?;
    assert !Before(r.value.row, r.value.col, row, col);
    assert !Before(row, col, r.value.row, r.value.col);
  }

  /** The placements after each block of the five-block example. */
  function ExampleAfter(k: nat): seq<Placement>
    requires k <= 5
  {
    if k == 0 then [] else ExampleAfter(k - 1) + [ExampleSpot(k - 1)]
  }

  /** Where the example's block `i` goes. */
  function ExampleSpot(i: nat): Placement
    requires i < 5
  {
    var bs := ExampleBlocks();
    if i == 0 then Placement(bs[0], 0, 0) else if i == 1 then Placement(bs[1], 1, 0)
    else if i == 2 then Placement(bs[2], 2, 0) else if i == 3 then Placement(bs[3], 0, 1)
    else Placement(bs[4], 2, 1)
  }

  lemma ExampleStep1()
    ensures FirstFit(ExampleAfter(1), Block(2, 2, 1)) == Some(Spot(1, 0))
  {
    var p := ExampleAfter(1);
    assert Owner(p, 0, 0).Some?;
    assert !Fits(p, 0, 0, 2, 1);
    FirstFitIs(p, Block(2, 2, 1), 1, 0);
  }

  lemma ExampleStep2()
    ensures FirstFit(ExampleAfter(2), Block(3, 1, 2)) == Some(Spot(2, 0))
  {
    var p := ExampleAfter(2);
    assert Owner(p, 0, 0).Some? && Owner(p, 1, 0).Some? && Owner(p, 1, 1).Some?;
    assert !Fits(p, 0, 0, 1, 2) && !Fits(p, 0, 1, 1, 2) && !Fits(p, 1, 0, 1, 2) && !Fits(p, 1, 1, 1, 2);
    FirstFitIs(p, Block(3, 1, 2), 2, 0);
  }

  lemma ExampleStep3()
    ensures FirstFit(ExampleAfter(3), Block(4, 1, 1)) == Some(Spot(0, 1))
  {
    var p := ExampleAfter(3);
    assert p[..2] == ExampleAfter(2) && ExampleAfter(2)[..1] == ExampleAfter(1);
    assert Owner(p, 0, 0).Some?;
    assert !Fits(p, 0, 0, 1, 1);
    FirstFitIs(p, Block(4, 1, 1), 0, 1);
  }

  lemma ExampleStep4()
    ensures FirstFit(ExampleAfter(4), Block(5, 1, 1)) == Some(Spot(2, 1))
  {
    var p := ExampleAfter(4);
    assert p[..3] == ExampleAfter(3) && ExampleAfter(3)[..2] == ExampleAfter(2);
    assert ExampleAfter(2)[..1] == ExampleAfter(1);
    assert Owner(p, 0, 0).Some? && Owner(p, 0, 1).Some? && Owner(p, 1, 0).Some? &&
           Owner(p, 1, 1).Some? && Owner(p, 2, 0).Some?;
    assert !Fits(p, 0, 0, 1, 1) && !Fits(p, 0, 1, 1, 1) && !Fits(p, 1, 0, 1, 1) &&
           !Fits(p, 1, 1, 1, 1) && !Fits(p, 2, 0, 1, 1);
    FirstFitIs(p, Block(5, 1, 1), 2, 1);
  }

  /** The blocks of the five-block example. */
  function ExampleBlocks(): seq<Block>
  {
    [Block(1, 1, 1), Block(2, 2, 1), Block(3, 1, 2), Block(4, 1, 1), Block(5, 1, 1)]
  }

  /** One more block of the example: it goes at its first fit after the first `k`. */
  lemma ExampleExtend(k: nat, s: Spot)
    requires k < 5 && Place(ExampleBlocks()[..k]) == ExampleAfter(k)
    requires FirstFit(ExampleAfter(k), ExampleBlocks()[k]) == Some(s)
    requires ExampleSpot(k) == Placement(ExampleBlocks()[k], s.row, s.col)
    ensures Place(ExampleBlocks()[..k + 1]) == ExampleAfter(k + 1)
  {
    var bs := ExampleBlocks();
    assert bs[..k + 1] == bs[..k] + [bs[k]];
    PlaceSnoc(bs[..k], bs[k], s);
  }

  /** The first three blocks of the example go at (0,0), (1,0) and (2,0). */
  lemma ExampleFirstThree()
    ensures Place(ExampleBlocks()[..3]) == ExampleAfter(3)
  {
    var bs := ExampleBlocks();
    assert bs[..0] == [];
    FirstFitIs([], bs[0], 0, 0);
    ExampleExtend(0, Spot(0, 0));
    ExampleStep1();
    ExampleExtend(1, Spot(1, 0));
    ExampleStep2();
    ExampleExtend(2, Spot(2, 0));
  }

  /** The fourth block goes at (0,1), beside the first. */
  lemma ExampleFirstFour()
    ensures Place(ExampleBlocks()[..4]) == ExampleAfter(4)
  {
    ExampleFirstThree();
    ExampleStep3();
    ExampleExtend(3, Spot(0, 1));
  }

  /** The five blocks 1x1, 2x1, 1x2, 1x1, 1x1 (7 cells) are all placed: at (0,0), (1,0),
      (2,0), (0,1) and (2,1). */
  lemma FiveBlockExample()
    ensures Place(ExampleBlocks()) == ExampleAfter(5)
  {
    var bs := ExampleBlocks();
    ExampleFirstFour();
    ExampleStep4();
    ExampleExtend(4, Spot(2, 1));
    assert bs[..5] == bs;
  }
}
