/** The original standalone sketch: no snapshots and no morphing. Every
    draw regenerates the whole mosaic and fills each cell's square or
    triangle with its region's colour string. */
module StaticMosaic {
  import opened Geometry
  import opened Regions

  /** one filled shape; `None` is the small-region fill this model leaves open */
  datatype StaticTile = StaticTile(fill: Option<string>, outline: seq<Point>)

  /** the shape and fill draw emits for the cell in column `col` and row `row` */
  function CellTile(cell: GridCell, regions: map<int, Region>, col: nat, row: nat, g: nat): StaticTile
    requires cell.regionRoot in regions
  {
    StaticTile(regions[cell.regionRoot].color,
               StaticOutline((col * g) as real, (row * g) as real, g as real, cell.isSquare, cell.skipCorner))
  }

  /** every cell's region is in the map */
  predicate Rooted(grid: seq<GridCell>, regions: map<int, Region>) {
    forall i :: 0 <= i < |grid| ==> grid[i].regionRoot in regions
  }

  /** the tile of cell `idx`, which lies in row `idx / cols` and column
      `idx % cols` */
  function StaticTileAt(grid: seq<GridCell>, regions: map<int, Region>, idx: nat, cols: nat, g: nat): StaticTile
    requires Rooted(grid, regions) && idx < |grid| && cols > 0
  {
    CellTile(grid[idx], regions, idx % cols, idx / cols, g)
  }

  /** `frame` holds one tile per cell, in row-major order */
  ghost predicate StaticFrameOf(frame: seq<StaticTile>, grid: seq<GridCell>, regions: map<int, Region>,
                                cols: nat, rows: nat, g: nat)
    requires Rooted(grid, regions)
  {
    && |frame| == |grid| == cols * rows
    && forall idx :: 0 <= idx < |frame| && cols > 0 ==> frame[idx] == StaticTileAt(grid, regions, idx, cols, g)
  }

  /** the column loop of draw for one row: appends that row's tiles */
  method RenderStaticRow(grid: seq<GridCell>, regions: map<int, Region>, row: nat, cols: nat, g: nat,
                         frame: seq<StaticTile>) returns (frame': seq<StaticTile>)
    requires Rooted(grid, regions) && cols > 0 && |frame| == row * cols && row * cols + cols <= |grid|
    ensures |frame'| == |frame| + cols && frame'[..|frame|] == frame
    ensures forall idx :: |frame| <= idx < |frame'| ==> frame'[idx] == StaticTileAt(grid, regions, idx, cols, g)
  {
    frame' := frame;
    var col := 0;
    while col < cols
      invariant 0 <= col <= cols && |frame'| == row * cols + col && frame'[..|frame|] == frame
      invariant forall idx :: |frame| <= idx < |frame'| ==> frame'[idx] == StaticTileAt(grid, regions, idx, cols, g)
    {
      var idx := row * cols + col;
      CellOfIndex(row, col, cols);
      var x, y := (col * g) as real, (row * g) as real;
      var cell := grid[idx];
      var region := regions[cell.regionRoot];
      var outline := StaticOutline(x, y, g as real, cell.isSquare, cell.skipCorner);
      assert StaticTile(region.color, outline) == StaticTileAt(grid, regions, idx, cols, g);
      frame' := frame' + [StaticTile(region.color, outline)];
      col := col + 1;
    }
  }

  /** the row-by-row, column-by-column loop of draw */
  method RenderStaticFrame(grid: seq<GridCell>, regions: map<int, Region>, cols: nat, rows: nat, g: nat)
    returns (frame: seq<StaticTile>)
    requires Rooted(grid, regions) && |grid| == cols * rows
    ensures StaticFrameOf(frame, grid, regions, cols, rows, g)
  {
    frame := [];
    if cols == 0 {
      return;
    }
    var row := 0;
    while row < rows
      invariant 0 <= row <= rows && |frame| == row * cols <= |grid|
      invariant forall idx :: 0 <= idx < |frame| ==> frame[idx] == StaticTileAt(grid, regions, idx, cols, g)
    {
      MulMonotone(row + 1, rows, cols);
      assert row * cols + cols == (row + 1) * cols;
      var frame' := RenderStaticRow(grid, regions, row, cols, g, frame);
      assert forall idx :: 0 <= idx < |frame| ==> frame'[idx] == frame[idx] by {
        assert frame'[..|frame|] == frame;
      }
      frame := frame';
      row := row + 1;
    }
  }

  /** each region is painted in one colour: every one of its cells gets the
      region's fill, and every tile stays inside its cell */
  lemma StaticFrameRegionsUniform(frame: seq<StaticTile>, grid: seq<GridCell>, regions: map<int, Region>,
                                  order: seq<int>, cols: nat, rows: nat, g: nat)
    requires Partitioned(grid, regions, order) && Rooted(grid, regions)
    requires StaticFrameOf(frame, grid, regions, cols, rows, g)
    ensures forall r <- regions :: forall c <- regions[r].cells ::
      0 <= c < |frame| && frame[c].fill == regions[r].color
    ensures forall idx :: 0 <= idx < |frame| && cols > 0 ==>
      forall p <- frame[idx].outline :: InCell(p, ((idx % cols) * g) as real, ((idx / cols) * g) as real, g as real)
  {
    forall idx | 0 <= idx < |frame| && cols > 0
      ensures forall p <- frame[idx].outline ::
        InCell(p, ((idx % cols) * g) as real, ((idx / cols) * g) as real, g as real)
    {
      var col, row := idx % cols, idx / cols;
      var cell := grid[idx];
      CellOutlineInCell((col * g) as real, (row * g) as real, g as real,
                        cell.isSquare, cell.skipCorner, cell.isSquare, cell.skipCorner, 0.0);
    }
  }

  /** the sketch's state: the canvas, the current palette and the mosaic of
      the last draw */
  class StaticSketch {
    const pallets: seq<seq<string>>
    const gridSize: nat
    const maxSize: nat
    const threshold: nat
    const mergeProbability: real
    const width: nat
    const height: nat
    var paletteColors: seq<string>
    var cols: nat
    var rows: nat
    var grid: seq<GridCell>
    var regions: map<int, Region>
    /** the key order of the regions Map */
    ghost var order: seq<int>

    ghost predicate Valid()
      reads this
    {
      && |pallets| > 0 && (forall k :: 0 <= k < |pallets| ==> |pallets[k]| > 0)
      && gridSize > 0 && maxSize > 0
      && paletteColors in pallets
    }

    /** setup: create the canvas and pick the first palette */
    constructor (width: nat, height: nat, pallets: seq<seq<string>>, gridSize: nat, maxSize: nat,
                 threshold: nat, mergeProbability: real, pickDraw: real)
      requires |pallets| > 0 && (forall k :: 0 <= k < |pallets| ==> |pallets[k]| > 0)
      requires gridSize > 0 && maxSize > 0 && 0.0 <= pickDraw < 1.0
      ensures Valid()
      ensures this.width == width && this.height == height && this.pallets == pallets
      ensures this.gridSize == gridSize && this.maxSize == maxSize && this.threshold == threshold
      ensures this.mergeProbability == mergeProbability
      ensures paletteColors == pallets[PickIndex(pickDraw, |pallets|)]
    {
      this.width, this.height, this.pallets := width, height, pallets;
      this.gridSize, this.maxSize, this.threshold, this.mergeProbability := gridSize, maxSize, threshold, mergeProbability;
      paletteColors := pallets[0];
      cols, rows, grid, regions, order := 0, 0, [], map[], [];
      new;
      PickNewPalette(pickDraw);
    }

    /** pickNewPalette, also run by the palette timer: a palette drawn at random */
    method PickNewPalette(u: real)
      requires |pallets| > 0 && 0.0 <= u < 1.0
      modifies this
      ensures paletteColors == pallets[PickIndex(u, |pallets|)] && paletteColors in pallets
      ensures cols == old(cols) && rows == old(rows) && grid == old(grid) && regions == old(regions)
      ensures order == old(order)
    {
      paletteColors := pallets[PickIndex(u, |pallets|)];
    }

    /** draw: a whole new mosaic every frame, each cell filled with its
        region's colour */
    method Draw(draws: Draws) returns (frame: seq<StaticTile>)
      requires Valid() && UnitDraws(draws)
      modifies this
      ensures Valid() && paletteColors == old(paletteColors)
      ensures cols == CeilDiv(width, gridSize) && rows == CeilDiv(height, gridSize)
      ensures Rooted(grid, regions)
      ensures GeneratedFrom(cols, rows, grid, regions, order, width, height, gridSize, maxSize, threshold,
                            mergeProbability, paletteColors, None, draws)
      ensures forall i :: 0 <= i < |grid| ==>
        grid[i].isSquare == (draws.shape(i) > 0.5) && grid[i].skipCorner == PickIndex(draws.corner(i), 4)
      ensures forall r <- regions :: 1 <= |regions[r].cells| <= maxSize
      ensures forall r <- regions :: |regions[r].cells| > threshold ==> FromPalette(regions[r].color, paletteColors)
      ensures forall r <- regions :: |regions[r].cells| <= threshold ==> regions[r].color == None
      ensures StaticFrameOf(frame, grid, regions, cols, rows, gridSize)
    {
      var m := GenerateRegions(width, height, gridSize, maxSize, threshold, mergeProbability,
                               paletteColors, None, draws);
      assert Rooted(m.grid, m.regions);
      frame := RenderStaticFrame(m.grid, m.regions, m.cols, m.rows, gridSize);
      cols, rows, grid, regions, order := m.cols, m.rows, m.grid, m.regions, m.order;
    }
  }
}
