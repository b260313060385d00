/** The morphing sketch: two snapshots of the grid (`currentState`,
    `nextState`), a `transitionProgress` that climbs by 1/frames per drawn
    frame, and a frame that interpolates every cell's colour and outline
    between the two snapshots at the eased progress. When progress reaches
    1 the next snapshot is promoted, the palette may change, the grid is
    regenerated and progress restarts at 0. */
module Morph {
  import opened Easing
  import opened Colors
  import opened Geometry
  import opened Regions

  /** a cell as one snapshot saw it */
  datatype CellState = CellState(color: Rgb, isSquare: bool, skipCorner: Corner)

  /** one filled shape of a frame */
  datatype Tile = Tile(fill: Rgb, outline: seq<Point>)

  /** every cell's region is in the map and has a fill */
  predicate Colourable(grid: seq<GridCell>, regions: map<int, Region>) {
    forall i :: 0 <= i < |grid| ==> grid[i].regionRoot in regions && regions[grid[i].regionRoot].color.Some?
  }

  /** `state` is the snapshot of `grid`: one entry per cell carrying the
      cell's shape and the colour its region's fill string parses to */
  predicate Captures(state: seq<CellState>, grid: seq<GridCell>, regions: map<int, Region>, colorOf: string -> Rgb)
    requires Colourable(grid, regions)
  {
    && |state| == |grid|
    && forall i :: 0 <= i < |grid| ==>
      state[i] == CellState(colorOf(regions[grid[i].regionRoot].color.value), grid[i].isSquare, grid[i].skipCorner)
  }

  /** captureState: a fresh snapshot of the grid */
  method CaptureState(grid: seq<GridCell>, regions: map<int, Region>, colorOf: string -> Rgb) returns (state: seq<CellState>)
    requires Colourable(grid, regions)
    ensures Captures(state, grid, regions, colorOf)
  {
    state := [];
    var i := 0;
    while i < |grid|
      invariant 0 <= i <= |grid| && |state| == i
      invariant forall j :: 0 <= j < i ==>
        state[j] == CellState(colorOf(regions[grid[j].regionRoot].color.value), grid[j].isSquare, grid[j].skipCorner)
    {
      var cell := grid[i];
      var region := regions[cell.regionRoot];
      state := state + [CellState(colorOf(region.color.value), cell.isSquare, cell.skipCorner)];
      i := i + 1;
    }
  }

  /** in a snapshot of a partitioned grid every region is one colour: all of
      its cells carry the colour of the region's fill */
  lemma SnapshotRegionsUniform(state: seq<CellState>, grid: seq<GridCell>, regions: map<int, Region>,
                               order: seq<int>, colorOf: string -> Rgb)
    requires Partitioned(grid, regions, order) && Colourable(grid, regions)
    requires Captures(state, grid, regions, colorOf)
    ensures forall r <- regions :: forall c <- regions[r].cells ::
      0 <= c < |state| && state[c].color == colorOf(regions[r].color.value)
  {
  }

  /** with a neutral palette every region of a generated grid gets a fill,
      so the whole grid can be captured */
  lemma PartitionColourable(grid: seq<GridCell>, regions: map<int, Region>, order: seq<int>,
                            threshold: nat, accent: seq<string>, neutral: seq<string>)
    requires Partitioned(grid, regions, order)
    requires forall r <- regions :: |regions[r].cells| > threshold ==> FromPalette(regions[r].color, accent)
    requires forall r <- regions :: |regions[r].cells| <= threshold ==> FromPalette(regions[r].color, neutral)
    ensures Colourable(grid, regions)
  {
    forall i | 0 <= i < |grid| ensures grid[i].regionRoot in regions && regions[grid[i].regionRoot].color.Some? {
      var r := grid[i].regionRoot;
      if |regions[r].cells| <= threshold {
        assert FromPalette(regions[r].color, neutral);
      } else {
        assert FromPalette(regions[r].color, accent);
      }
    }
  }

  /** generateRegions with a neutral palette for the small regions: a
      partitioned grid in which every region has a fill */
  method GenerateFilled(width: nat, height: nat, gridSize: nat, maxSize: nat, threshold: nat,
                        mergeProbability: real, accent: seq<string>, neutral: seq<string>, draws: Draws)
    returns (m: Mosaic)
    requires gridSize > 0 && maxSize > 0 && |accent| > 0 && |neutral| > 0 && UnitDraws(draws)
    ensures m.cols == CeilDiv(width, gridSize) && m.rows == CeilDiv(height, gridSize)
    ensures |m.grid| == m.cols * m.rows
    ensures GeneratedFrom(m.cols, m.rows, m.grid, m.regions, m.order, width, height, gridSize, maxSize, threshold,
                          mergeProbability, accent, Some(neutral), draws)
    ensures Partitioned(m.grid, m.regions, m.order) && Colourable(m.grid, m.regions)
    ensures forall r <- m.regions :: 1 <= |m.regions[r].cells| <= maxSize
    ensures forall r <- m.regions :: |m.regions[r].cells| > threshold ==> FromPalette(m.regions[r].color, accent)
    ensures forall r <- m.regions :: |m.regions[r].cells| <= threshold ==> FromPalette(m.regions[r].color, neutral)
  {
    m := GenerateRegions(width, height, gridSize, maxSize, threshold, mergeProbability, accent, Some(neutral), draws);
    PartitionColourable(m.grid, m.regions, m.order, threshold, accent, neutral);
  }

  /** the tile the draw loop emits for the cell in column `col` and row `row` */
  function MorphTile(curr: CellState, next: CellState, col: nat, row: nat, g: nat, eased: real): Tile {
    Tile(LerpColor(curr.color, next.color, eased),
         CellOutline((col * g) as real, (row * g) as real, g as real,
                     curr.isSquare, curr.skipCorner, next.isSquare, next.skipCorner, eased))
  }

  /** the tile of cell `idx`, which lies in row `idx / cols` and column
      `idx % cols` */
  function TileAt(curr: seq<CellState>, next: seq<CellState>, idx: nat, cols: nat, g: nat, eased: real): Tile
    requires idx < |curr| == |next| && cols > 0
  {
    MorphTile(curr[idx], next[idx], idx % cols, idx / cols, g, eased)
  }

  /** `frame` holds one tile per cell, in row-major order */
  ghost predicate FrameOf(frame: seq<Tile>, curr: seq<CellState>, next: seq<CellState>, cols: nat, rows: nat, g: nat, eased: real) {
    && |frame| == cols * rows && |curr| == |next| == |frame|
    && forall idx :: 0 <= idx < |frame| && cols > 0 ==> frame[idx] == TileAt(curr, next, idx, cols, g, eased)
  }

  /** the column loop of draw for one row: appends that row's tiles */
  method RenderRow(curr: seq<CellState>, next: seq<CellState>, row: nat, cols: nat, g: nat, eased: real,
                   frame: seq<Tile>) returns (frame': seq<Tile>)
    requires |curr| == |next| && cols > 0 && |frame| == row * cols && row * cols + cols <= |curr|
    ensures |frame'| == |frame| + cols && frame'[..|frame|] == frame
    ensures forall idx :: |frame| <= idx < |frame'| ==> frame'[idx] == TileAt(curr, next, idx, cols, g, eased)
  {
    frame' := frame;
    var col := 0;
    while col < cols
      invariant 0 <= col <= cols && |frame'| == row * cols + col && frame'[..|frame|] == frame
      invariant forall idx :: |frame| <= idx < |frame'| ==> frame'[idx] == TileAt(curr, next, idx, cols, g, eased)
    {
      var idx := row * cols + col;
      CellOfIndex(row, col, cols);
      var x, y := (col * g) as real, (row * g) as real;
      var currCell, nextCell := curr[idx], next[idx];
      var fill := LerpColor(currCell.color, nextCell.color, eased);
      var outline := CellOutline(x, y, g as real, currCell.isSquare, currCell.skipCorner,
                                 nextCell.isSquare, nextCell.skipCorner, eased);
      assert Tile(fill, outline) == TileAt(curr, next, idx, cols, g, eased);
      frame' := frame' + [Tile(fill, outline)];
      col := col + 1;
    }
  }

  /** the row-by-row, column-by-column loop of draw */
  method RenderFrame(curr: seq<CellState>, next: seq<CellState>, cols: nat, rows: nat, g: nat, eased: real)
    returns (frame: seq<Tile>)
    requires |curr| == |next| == cols * rows
    ensures FrameOf(frame, curr, next, cols, rows, g, eased)
  {
    frame := [];
    if cols == 0 {
      return;
    }
    var row := 0;
    while row < rows
      invariant 0 <= row <= rows && |frame| == row * cols <= |curr|
      invariant forall idx :: 0 <= idx < |frame| ==> frame[idx] == TileAt(curr, next, idx, cols, g, eased)
    {
      MulMonotone(row + 1, rows, cols);
      assert row * cols + cols == (row + 1) * cols;
      var frame' := RenderRow(curr, next, row, cols, g, eased, frame);
      assert forall idx :: 0 <= idx < |frame| ==> frame'[idx] == frame[idx] by {
        assert frame'[..|frame|] == frame;
      }
      frame := frame';
      row := row + 1;
    }
  }

  /** a tile drawn at eased progress 1 and the same cell's tile drawn at 0
      once that snapshot has been promoted show the same colour and outline,
      so a transition hands over to the next without a visible jump */
  lemma PromotionSeamless(curr: CellState, next: CellState, after: CellState, col: nat, row: nat, g: nat)
    ensures MorphTile(curr, next, col, row, g, 1.0).fill == next.color
    ensures MorphTile(next, after, col, row, g, 0.0).fill == next.color
    ensures var x, y := (col * g) as real, (row * g) as real;
      && Traces(MorphTile(curr, next, col, row, g, 1.0).outline, StaticOutline(x, y, g as real, next.isSquare, next.skipCorner))
      && Traces(MorphTile(next, after, col, row, g, 0.0).outline, StaticOutline(x, y, g as real, next.isSquare, next.skipCorner))
  {
    var x, y := (col * g) as real, (row * g) as real;
    LerpColorEndpoints(curr.color, next.color);
    LerpColorEndpoints(next.color, after.color);
    CellOutlineEnds(x, y, g as real, curr.isSquare, curr.skipCorner, next.isSquare, next.skipCorner);
    CellOutlineEnds(x, y, g as real, next.isSquare, next.skipCorner, after.isSquare, after.skipCorner);
  }

  /** between two identical snapshots nothing moves: every tile is the
      cell's plain shape in its own colour, whatever the progress */
  lemma StillWhenSnapshotsAgree(s: CellState, col: nat, row: nat, g: nat, eased: real)
    ensures MorphTile(s, s, col, row, g, eased) ==
      Tile(s.color, StaticOutline((col * g) as real, (row * g) as real, g as real, s.isSquare, s.skipCorner))
  {
    LerpColorSame(s.color, eased);
  }

  /** at eased progress in [0, 1] a tile stays inside its cell and two
      in-gamut snapshot colours give an in-gamut fill */
  lemma TileInCell(curr: CellState, next: CellState, col: nat, row: nat, g: nat, eased: real)
    requires 0.0 <= eased <= 1.0
    ensures forall p <- MorphTile(curr, next, col, row, g, eased).outline ::
      InCell(p, (col * g) as real, (row * g) as real, g as real)
    ensures InGamut(curr.color) && InGamut(next.color) ==> InGamut(MorphTile(curr, next, col, row, g, eased).fill)
  {
    CellOutlineInCell((col * g) as real, (row * g) as real, g as real,
                      curr.isSquare, curr.skipCorner, next.isSquare, next.skipCorner, eased);
    if InGamut(curr.color) && InGamut(next.color) {
      LerpColorInGamut(curr.color, next.color, eased);
    }
  }

  /** the progress a frame is drawn at: a finished transition restarts at 0 */
  function RenderedProgress(p: real): real {
    if p >= 1.0 then 0.0 else p
  }

  /** transitionProgress after one draw */
  function Advance(p: real, frames: nat): real
    requires frames >= 1
  {
    RenderedProgress(p) + 1.0 / frames as real
  }

  /** transitionProgress after `k` draws */
  function AdvanceTimes(p: real, frames: nat, k: nat): real
    requires frames >= 1
  {
    if k == 0 then p else Advance(AdvanceTimes(p, frames, k - 1), frames)
  }

  lemma FractionBelowOne(k: nat, frames: nat)
    requires k < frames
    ensures k as real / frames as real < 1.0
  {
    assert (k as real / frames as real) * frames as real == k as real;
  }

  /** starting from 0, the k-th draw of a transition leaves progress at
      exactly k/frames, for k up to frames */
  lemma {:induction false} ProgressCountsFrames(frames: nat, k: nat)
    requires 1 <= frames && k <= frames
    ensures AdvanceTimes(0.0, frames, k) == k as real / frames as real
  {
    if k > 0 {
      ProgressCountsFrames(frames, k - 1);
      FractionBelowOne(k - 1, frames);
    }
  }

  /** a transition lasts exactly `frames` draws: starting from 0, progress
      first reaches 1 after `frames` draws, and no earlier */
  lemma TransitionLength(frames: nat, k: nat)
    requires 1 <= frames && k <= frames
    ensures AdvanceTimes(0.0, frames, k) >= 1.0 <==> k == frames
  {
    ProgressCountsFrames(frames, k);
    if k < frames {
      FractionBelowOne(k, frames);
    }
  }

  /** a finished transition behaves as a fresh one: from any progress of at
      least 1 (setup starts at 1) the draws follow the run from 0 */
  lemma {:induction false} RestartsLikeFresh(p: real, frames: nat, k: nat)
    requires frames >= 1 && p >= 1.0 && k >= 1
    ensures AdvanceTimes(p, frames, k) == AdvanceTimes(0.0, frames, k)
  {
    if k > 1 {
      RestartsLikeFresh(p, frames, k - 1);
    }
  }

  /** transitions repeat with period `frames` */
  lemma {:induction false} ProgressPeriodic(frames: nat, k: nat)
    requires frames >= 1
    ensures AdvanceTimes(0.0, frames, frames + k + 1) == AdvanceTimes(0.0, frames, k + 1)
  {
    if k == 0 {
      ProgressCountsFrames(frames, frames);
      assert AdvanceTimes(0.0, frames, frames) == 1.0;
    } else {
      ProgressPeriodic(frames, k - 1);
    }
  }

  /** how pickNewPallet chooses: mosaic-morph rotates to the next palette,
      script.ts draws one at random */
  datatype PalletPolicy = Rotate | RandomPick

  function NextPalletIndex(policy: PalletPolicy, index: nat, u: real, count: nat): (k: nat)
    requires count > 0 && 0.0 <= u < 1.0
    ensures k < count
  {
    match policy
    case Rotate => (index + 1) % count
    case RandomPick => PickIndex(u, count)
  }

  /** the palette index after `steps` rotations */
  function Rotated(index: nat, count: nat, steps: nat): nat
    requires count > 0
  {
    if steps == 0 then index else (Rotated(index, count, steps - 1) + 1) % count
  }

  lemma NextIndex(index: nat, count: nat)
    requires index < count
    ensures (index + 1) % count == if index + 1 < count then index + 1 else 0
  {
    if index + 1 < count {
      DivModUnique(index + 1, count, 0, index + 1);
    } else {
      DivModUnique(index + 1, count, 1, 0);
    }
  }

  /** `steps` rotations from `index` move `steps` places, wrapping round once */
  lemma {:induction false} RotatedIsOffset(index: nat, count: nat, steps: nat)
    requires index < count && steps < count
    ensures Rotated(index, count, steps) == if index + steps < count then index + steps else index + steps - count
  {
    if steps > 0 {
      RotatedIsOffset(index, count, steps - 1);
      NextIndex(Rotated(index, count, steps - 1), count);
    }
  }

  /** rotation reaches every palette within `count` changes */
  lemma RotationVisitsEveryPallet(index: nat, count: nat, target: nat)
    requires index < count && target < count
    ensures exists steps: nat :: steps < count && Rotated(index, count, steps) == target
  {
    var steps := if index <= target then target - index else target + count - index;
    RotatedIsOffset(index, count, steps);
    assert Rotated(index, count, steps) == target;
  }

  class MorphSketch {
    const pallets: seq<seq<string>>
    const neutral: seq<string>
    const maxSize: nat
    const threshold: nat
    const mergeProbability: real
    const rollChance: real
    const policy: PalletPolicy
    const easing: EasingType
    /** p.color on a '#rrggbb' string */
    const colorOf: string -> Rgb
    var width: nat
    var height: nat
    var gridSize: nat
    var palletIndex: nat
    var palletColors: seq<string>
    var cols: nat
    var rows: nat
    var grid: seq<GridCell>
    var regions: map<int, Region>
    /** the key order of the regions Map */
    ghost var order: seq<int>
    var currentState: seq<CellState>
    var nextState: seq<CellState>
    var transitionProgress: real

    ghost predicate Valid()
      reads this
    {
      Settled() && transitionProgress >= 0.0
    }

    /** everything but the progress: the palette in range, the grid sized
        for the canvas with every region coloured, the next snapshot taken
        from it and the current one of the same size */
    ghost predicate Settled()
      reads this`width, this`height, this`gridSize, this`palletIndex, this`palletColors
      reads this`cols, this`rows, this`grid, this`regions, this`currentState, this`nextState
    {
      && |pallets| > 0 && (forall k :: 0 <= k < |pallets| ==> |pallets[k]| > 0)
      && |neutral| > 0 && maxSize > 0 && gridSize > 0
      && palletIndex < |pallets| && palletColors == pallets[palletIndex]
      && cols == CeilDiv(width, gridSize) && rows == CeilDiv(height, gridSize)
      && |grid| == cols * rows
      && Colourable(grid, regions)
      && Captures(nextState, grid, regions, colorOf)
      && |currentState| == |grid|
    }

    /** setup: rolls the first palette, generates the grid and takes both
        snapshots from it; progress starts at 1, so the first draw begins a
        transition at once */
    constructor (width: nat, height: nat, gridSize: nat, pallets: seq<seq<string>>, neutral: seq<string>,
                 maxSize: nat, threshold: nat, mergeProbability: real, rollChance: real,
                 policy: PalletPolicy, easing: EasingType, colorOf: string -> Rgb,
                 pickDraw: real, draws: Draws)
      requires |pallets| > 0 && (forall k :: 0 <= k < |pallets| ==> |pallets[k]| > 0)
      requires |neutral| > 0 && maxSize > 0 && gridSize > 0
      requires 0.0 <= pickDraw < 1.0 && UnitDraws(draws)
      ensures Valid()
      ensures this.width == width && this.height == height && this.gridSize == gridSize
      ensures this.pallets == pallets && this.neutral == neutral && this.maxSize == maxSize
      ensures this.threshold == threshold && this.mergeProbability == mergeProbability
      ensures this.rollChance == rollChance && this.policy == policy && this.easing == easing
      ensures palletIndex == NextPalletIndex(policy, 0, pickDraw, |pallets|)
      ensures transitionProgress == 1.0 && currentState == nextState
      ensures GeneratedFrom(cols, rows, grid, regions, order, width, height, gridSize, maxSize, threshold,
                            mergeProbability, pallets[palletIndex], Some(neutral), draws)
    {
      this.pallets, this.neutral, this.maxSize, this.threshold := pallets, neutral, maxSize, threshold;
      this.mergeProbability, this.rollChance, this.policy := mergeProbability, rollChance, policy;
      this.easing, this.colorOf := easing, colorOf;
      this.width, this.height, this.gridSize := width, height, gridSize;
      palletIndex, palletColors := 0, pallets[0];
      cols, rows, grid, regions, order := 0, 0, [], map[], [];
      currentState, nextState := [], [];
      transitionProgress := 1.0;
      new;
      PickNewPallet(pickDraw);
      Regenerate(draws);
      var current := CaptureState(grid, regions, colorOf);
      var next := CaptureState(grid, regions, colorOf);
      currentState, nextState := current, next;
    }

    /** pickNewPallet */
    method PickNewPallet(u: real)
      requires |pallets| > 0 && (forall k :: 0 <= k < |pallets| ==> |pallets[k]| > 0)
      requires palletIndex < |pallets| && 0.0 <= u < 1.0
      modifies this
      ensures palletIndex == NextPalletIndex(policy, old(palletIndex), u, |pallets|)
      ensures palletColors == pallets[palletIndex]
      ensures width == old(width) && height == old(height) && gridSize == old(gridSize)
      ensures cols == old(cols) && rows == old(rows) && grid == old(grid) && regions == old(regions)
      ensures order == old(order)
      ensures currentState == old(currentState) && nextState == old(nextState)
      ensures transitionProgress == old(transitionProgress)
    {
      palletIndex := NextPalletIndex(policy, palletIndex, u, |pallets|);
      palletColors := pallets[palletIndex];
    }

    /** generateRegions on the sketch's fields, with the current palette as
        the accent colours and the neutral palette for small regions */
    method Regenerate(draws: Draws)
      requires |neutral| > 0 && maxSize > 0 && gridSize > 0 && |palletColors| > 0 && UnitDraws(draws)
      modifies this
      ensures width == old(width) && height == old(height) && gridSize == old(gridSize)
      ensures palletIndex == old(palletIndex) && palletColors == old(palletColors)
      ensures currentState == old(currentState) && nextState == old(nextState)
      ensures transitionProgress == old(transitionProgress)
      ensures cols == CeilDiv(width, gridSize) && rows == CeilDiv(height, gridSize) && |grid| == cols * rows
      ensures Colourable(grid, regions)
      ensures GeneratedFrom(cols, rows, grid, regions, order, width, height, gridSize, maxSize, threshold,
                            mergeProbability, palletColors, Some(neutral), draws)
      ensures forall r <- regions :: |regions[r].cells| > threshold ==> FromPalette(regions[r].color, palletColors)
      ensures forall r <- regions :: |regions[r].cells| <= threshold ==> FromPalette(regions[r].color, neutral)
    {
      var m := GenerateFilled(width, height, gridSize, maxSize, threshold, mergeProbability,
                              palletColors, neutral, draws);
      cols, rows, grid, regions, order := m.cols, m.rows, m.grid, m.regions, m.order;
    }

    /** the start of a new transition in draw: the next snapshot becomes
        the current one, the palette changes when the roll falls under the
        chance, and a fresh grid gives the next snapshot */
    method Promote(rollDraw: real, pickDraw: real, draws: Draws)
      requires Valid() && 0.0 <= rollDraw < 1.0 && 0.0 <= pickDraw < 1.0 && UnitDraws(draws)
      modifies this
      ensures Valid() && transitionProgress == 0.0
      ensures currentState == old(nextState)
      ensures palletIndex == (if rollDraw < rollChance then NextPalletIndex(policy, old(palletIndex), pickDraw, |pallets|)
                              else old(palletIndex))
      ensures GeneratedFrom(cols, rows, grid, regions, order, width, height, gridSize, maxSize, threshold,
                            mergeProbability, pallets[palletIndex], Some(neutral), draws)
      ensures width == old(width) && height == old(height) && gridSize == old(gridSize)
    {
      currentState := nextState;
      if rollDraw < rollChance {
        PickNewPallet(pickDraw);
      }
      Regenerate(draws);
      nextState := CaptureState(grid, regions, colorOf);
      transitionProgress := 0.0;
    }

    /** draw: promote and regenerate when the transition is over, draw every
        cell at the eased progress, then advance by 1/frames */
    method Draw(rollDraw: real, pickDraw: real, draws: Draws, frames: nat) returns (frame: seq<Tile>)
      requires Valid() && frames >= 1
      requires 0.0 <= rollDraw < 1.0 && 0.0 <= pickDraw < 1.0 && UnitDraws(draws)
      modifies this
      ensures Valid()
      ensures old(transitionProgress) >= 1.0 ==>
        && currentState == old(nextState)
        && palletIndex == (if rollDraw < rollChance then NextPalletIndex(policy, old(palletIndex), pickDraw, |pallets|)
                           else old(palletIndex))
        && GeneratedFrom(cols, rows, grid, regions, order, width, height, gridSize, maxSize, threshold,
                         mergeProbability, pallets[palletIndex], Some(neutral), draws)
      ensures old(transitionProgress) < 1.0 ==>
        && currentState == old(currentState) && nextState == old(nextState)
        && cols == old(cols) && rows == old(rows) && grid == old(grid) && regions == old(regions)
        && order == old(order) && palletIndex == old(palletIndex)
      ensures width == old(width) && height == old(height) && gridSize == old(gridSize)
      ensures transitionProgress == Advance(old(transitionProgress), frames)
      ensures FrameOf(frame, currentState, nextState, cols, rows, gridSize,
                      GetEasing(easing, RenderedProgress(old(transitionProgress))))
      ensures 0.0 <= RenderedProgress(old(transitionProgress)) < 1.0
    {
      if transitionProgress >= 1.0 {
        Promote(rollDraw, pickDraw, draws);
      }
      var easedProgress := GetEasing(easing, transitionProgress);
      frame := RenderFrame(currentState, nextState, cols, rows, gridSize, easedProgress);
      transitionProgress := transitionProgress + 1.0 / frames as real;
    }

    /** the onSizeChange callback: regenerate at the new grid size, take both
        snapshots from the new grid, and restart the transition at 0 */
    method OnSizeChange(newGridSize: nat, draws: Draws)
      requires Valid() && newGridSize > 0 && UnitDraws(draws)
      modifies this
      ensures Valid()
      ensures gridSize == newGridSize && width == old(width) && height == old(height)
      ensures currentState == nextState && transitionProgress == 0.0
      ensures palletIndex == old(palletIndex)
      ensures GeneratedFrom(cols, rows, grid, regions, order, width, height, gridSize, maxSize, threshold,
                            mergeProbability, pallets[palletIndex], Some(neutral), draws)
    {
      gridSize := newGridSize;
      Regenerate(draws);
      var current := CaptureState(grid, regions, colorOf);
      var next := CaptureState(grid, regions, colorOf);
      currentState, nextState := current, next;
      transitionProgress := 0.0;
    }

    /** windowResized: regenerate for the new canvas and take both snapshots
        from the new grid; unlike onSizeChange it leaves the progress as it
        was */
    method WindowResized(newWidth: nat, newHeight: nat, draws: Draws)
      requires Valid() && UnitDraws(draws)
      modifies this
      ensures Valid()
      ensures width == newWidth && height == newHeight && gridSize == old(gridSize)
      ensures currentState == nextState && transitionProgress == old(transitionProgress)
      ensures palletIndex == old(palletIndex)
      ensures GeneratedFrom(cols, rows, grid, regions, order, width, height, gridSize, maxSize, threshold,
                            mergeProbability, pallets[palletIndex], Some(neutral), draws)
    {
      width, height := newWidth, newHeight;
      Regenerate(draws);
      var current := CaptureState(grid, regions, colorOf);
      var next := CaptureState(grid, regions, colorOf);
      currentState, nextState := current, next;
    }
  }
}
