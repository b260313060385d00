/** The three sketches with their own tunables: the morphing mosaic
    (mosaic-morph/script.svelte.ts), the earlier morphing mosaic (script.ts)
    and the standalone static mosaic (sketch.js). Palettes list their hex
    strings in declaration order, the order Object.values returns them in. */
module Sketches {
  import opened Easing
  import opened Colors
  import opened Regions
  import opened Morph
  import opened StaticMosaic

  const Earthy: seq<string> := ["230903", "656256", "9ebc9f", "d3b88c", "f4f2f3"]
  const Sunset: seq<string> := ["a40e4c", "2c2c54", "acc3a6", "f5d6ba", "f49d6e"]
  const DesertNight: seq<string> := ["e1b07e", "e5be9e", "cbc0ad", "86a397", "361d2e"]
  const Marble: seq<string> := ["e2dadb", "dae2df", "a2a7a5", "6d696a", "ffffff"]

  /** mosaic-morph: sunset appears twice in the rotation */
  const MorphPallets: seq<seq<string>> := [Earthy, Sunset, DesertNight, Sunset, Marble]
  const MorphRegionThreshold: nat := 16
  const MorphMaxRegionSize: nat := 36
  const MorphMergeProbability: real := 0.5
  const MorphRollChance: real := 0.85
  const GridSizeMin: nat := 12
  const GridSizeMax: nat := 75
  const TransitionFramesMin: nat := 15
  const TransitionFramesMax: nat := 270

  /** script.ts */
  const DriftPallets: seq<seq<string>> := [Earthy, Sunset, DesertNight]
  const DriftGridSize: nat := 16
  const DriftRegionThreshold: nat := 4
  const DriftMaxRegionSize: nat := 24
  const DriftMergeProbability: real := 0.5
  const DriftRollChance: real := 0.6
  const DriftTransitionFrames: nat := 25

  /** sketch.js */
  const StaticPallets: seq<seq<string>> := [Earthy, Sunset, DesertNight]
  const StaticGridSize: nat := 15
  const StaticRegionThreshold: nat := 5
  const StaticMaxRegionSize: nat := 25
  const StaticMergeProbability: real := 0.5
  const CanvasWidth: nat := 3840
  const CanvasHeight: nat := 2160

  /** mosaic-morph's setup on a canvas of the container's size, at the grid
      size the configuration gives: the rotation starts from index 0, so the
      first palette shown is sunset */
  method NewMosaicMorph(width: nat, height: nat, gridSize: nat, colorOf: string -> Rgb, draws: Draws)
    returns (s: MorphSketch)
    requires gridSize > 0 && UnitDraws(draws)
    ensures s.Valid() && s.width == width && s.height == height && s.gridSize == gridSize
    ensures s.pallets == MorphPallets && s.neutral == Marble && s.policy == Rotate && s.easing == InOutCubic
    ensures s.maxSize == MorphMaxRegionSize && s.threshold == MorphRegionThreshold
    ensures s.mergeProbability == MorphMergeProbability && s.rollChance == MorphRollChance
    ensures s.palletIndex == 1 && s.palletColors == Sunset
    ensures s.transitionProgress == 1.0 && s.currentState == s.nextState
  {
    s := new MorphSketch(width, height, gridSize, MorphPallets, Marble, MorphMaxRegionSize, MorphRegionThreshold,
                         MorphMergeProbability, MorphRollChance, Rotate, InOutCubic, colorOf, 0.0, draws);
  }

  /** script.ts's setup: a fixed grid of 16 pixels and a palette drawn at random */
  method NewDriftingMosaic(width: nat, height: nat, colorOf: string -> Rgb, pickDraw: real, draws: Draws)
    returns (s: MorphSketch)
    requires 0.0 <= pickDraw < 1.0 && UnitDraws(draws)
    ensures s.Valid() && s.width == width && s.height == height && s.gridSize == DriftGridSize
    ensures s.pallets == DriftPallets && s.neutral == Marble && s.policy == RandomPick && s.easing == InOutCubic
    ensures s.maxSize == DriftMaxRegionSize && s.threshold == DriftRegionThreshold
    ensures s.mergeProbability == DriftMergeProbability && s.rollChance == DriftRollChance
    ensures s.palletColors == DriftPallets[PickIndex(pickDraw, |DriftPallets|)]
    ensures s.transitionProgress == 1.0 && s.currentState == s.nextState
  {
    s := new MorphSketch(width, height, DriftGridSize, DriftPallets, Marble, DriftMaxRegionSize, DriftRegionThreshold,
                         DriftMergeProbability, DriftRollChance, RandomPick, InOutCubic, colorOf, pickDraw, draws);
  }

  /** sketch.js's setup: a 3840 by 2160 canvas and a palette drawn at random */
  method NewStaticMosaic(pickDraw: real) returns (s: StaticSketch)
    requires 0.0 <= pickDraw < 1.0
    ensures s.Valid() && s.width == CanvasWidth && s.height == CanvasHeight && s.gridSize == StaticGridSize
    ensures s.pallets == StaticPallets && s.maxSize == StaticMaxRegionSize && s.threshold == StaticRegionThreshold
    ensures s.mergeProbability == StaticMergeProbability
    ensures s.paletteColors == StaticPallets[PickIndex(pickDraw, |StaticPallets|)]
  {
    s := new StaticSketch(CanvasWidth, CanvasHeight, StaticPallets, StaticGridSize, StaticMaxRegionSize,
                          StaticRegionThreshold, StaticMergeProbability, pickDraw);
  }

  /** at 3840 by 2160 with 15-pixel cells the static mosaic is 256 columns
      by 144 rows */
  lemma StaticGridDimensions()
    ensures CeilDiv(CanvasWidth, StaticGridSize) == 256 && CeilDiv(CanvasHeight, StaticGridSize) == 144
  {
    assert (CanvasWidth + StaticGridSize - 1) / StaticGridSize == 256 by {
      DivModUnique(CanvasWidth + StaticGridSize - 1, StaticGridSize, 256, 14);
    }
    assert (CanvasHeight + StaticGridSize - 1) / StaticGridSize == 144 by {
      DivModUnique(CanvasHeight + StaticGridSize - 1, StaticGridSize, 144, 14);
    }
  }

  /** script.ts's transitions last exactly 25 draws */
  lemma DriftTransitionLength(k: nat)
    requires k <= DriftTransitionFrames
    ensures AdvanceTimes(0.0, DriftTransitionFrames, k) >= 1.0 <==> k == DriftTransitionFrames
  {
    TransitionLength(DriftTransitionFrames, k);
  }

  /** every transition length mosaic-morph's configuration offers meets
      draw's requirement of at least one frame, and the transition then
      lasts exactly that many draws */
  lemma MorphTransitionLength(frames: nat, k: nat)
    requires TransitionFramesMin <= frames <= TransitionFramesMax && k <= frames
    ensures frames >= 1
    ensures AdvanceTimes(0.0, frames, k) >= 1.0 <==> k == frames
  {
    TransitionLength(frames, k);
  }

  /** every grid size mosaic-morph's configuration offers is a valid size
      for onSizeChange, and the grid it gives has between the column (or
      row) counts of the largest and the smallest cells */
  lemma MorphGridBounds(extent: nat, g: nat)
    requires GridSizeMin <= g <= GridSizeMax
    ensures g > 0
    ensures CeilDiv(extent, GridSizeMax) <= CeilDiv(extent, g) <= CeilDiv(extent, GridSizeMin)
  {
    CeilDivAntitone(extent, g, GridSizeMax);
    CeilDivAntitone(extent, GridSizeMin, g);
  }

  /** mosaic-morph's rotation over its five slots comes back to the start
      after five changes and shows sunset twice on the way */
  lemma MorphRotationCycle()
    ensures Rotated(0, |MorphPallets|, 5) == 0
    ensures MorphPallets[Rotated(0, |MorphPallets|, 1)] == MorphPallets[Rotated(0, |MorphPallets|, 3)] == Sunset
  {
    NextIndex(0, 5);
    NextIndex(1, 5);
    NextIndex(2, 5);
    NextIndex(3, 5);
    NextIndex(4, 5);
  }
}
