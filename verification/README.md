# Mosaic region clustering and morph engine, in Dafny

The sketches draw a canvas as a grid of square cells. Each cell shows either a square or a triangle that cuts off one corner.

Generating a mosaic works like this:
- Neighbouring cells are merged at random into regions by a union-find that refuses any region larger than a cap.
- Regions with more cells than a threshold take a colour from the current accent palette; the others take a colour from a neutral palette.
- Each cell records its region's root.

The morphing sketches keep two snapshots of the grid, *current* and *next*:
- Every frame draws each cell with its colour interpolated between the two snapshots.
- Its outline is morphed between the two shapes, at an eased progress.
- When a transition ends, the next snapshot is promoted and the palette may change.
- Then the grid is regenerated, a new next snapshot is taken, and progress restarts.

The same engine exists in three copies, modelled once with the tunables as parameters:
- `src/lib/components/sketches/mosaic-morph/script.svelte.ts` (below *mosaic-morph*) is the fullest. It has a configurable grid size and transition length, a palette rotation and an `onSizeChange` hook.
- `src/lib/components/sketches/script.ts` (*script.ts*) is an earlier copy with fixed constants and a palette drawn at random.
- `sketch.js` is the static ancestor. It regenerates and redraws the whole mosaic every frame, with no morphing.

Files:
- `forest.dfy` (module `Forest`): the union-find forest as values. It covers rank increasing along parent links, roots and regions, path compression, linking, and exact capped sizes. `Clusters` and `UnionStep` give what a union does to every node's root, rank and size as a plain function.
- `union_find.dfy` (`Clustering.UnionFind`): the class over `parent`, `rank` and `size` arrays, proved against `Forest`.
- `easing.dfy`, `colors.dfy`, `geometry.dfy`: easing curves, colour interpolation, and the vertex sequence each draw function emits, all over exact reals.
- `regions.dfy` (`Regions`): `generateRegions` as an imperative pass. It builds the grid, runs the merge loop, builds the region map in Map insertion order, colours the regions and writes the roots. The merge loop is proved to leave the roots that `MergeAll`, the fold of `UnionStep` over the drawn attempts in loop order, gives.
- `morph.dfy` (`Morph`): snapshots, the frame loop, transition progress, palette choice, and the class `MorphSketch`. That class holds the draw, `onSizeChange` and `windowResized` state machine.
- `static_mosaic.dfy` (`StaticMosaic`): sketch.js's per-frame regeneration and drawing, as the class `StaticSketch`.
- `sketches.dfy` (`Sketches`): each file's constants and palettes, and setup for each sketch built from them.

Randomness is injected:
- Every `p.random()` is a draw in [0, 1) taken from a `Draws` value.
- Cell `i` reads `shape(i)`, `corner(i)`, `mergeRight(i)` and `mergeDown(i)`; the `k`-th region in Map order reads `pick(k)`.
- `random(array)` and `floor(random(4))` index at `floor(u * length)`.

Behaviour worth noting:
- Progress starts at 1 in setup.
- Progress reaches 1 or more before the next draw promotes, so it is not confined to [0, 1). Only the progress a frame is drawn at is (`Morph.MorphSketch.Draw`).
- `windowResized` regenerates and re-captures both snapshots, but it does not reset progress. Only `onSizeChange` does.

## Model

Source paths are relative to the repository root. Rows cite mosaic-morph; script.ts and sketch.js carry the same code at their own lines.

| member | source | states |
|---|---|---|
| Forest.Root | src/lib/components/sketches/mosaic-morph/script.svelte.ts:54-59 | following parent links from `x` ends at a self-parented root, ranked strictly above `x` unless `x` is that root; rank rising along links is the termination measure |
| Forest.SameRootsSameMembers | src/lib/components/sketches/mosaic-morph/script.svelte.ts:54-59 | two forests in which every node reaches the same root have the same regions |
| Forest.RootIsMember | src/lib/components/sketches/mosaic-morph/script.svelte.ts:54-59 | a root belongs to its own region |
| Forest.Compress | src/lib/components/sketches/mosaic-morph/script.svelte.ts:54-59 | pointing `x` straight at its root keeps rank increasing along links and leaves every node's root unchanged |
| Forest.CompressSized | src/lib/components/sketches/mosaic-morph/script.svelte.ts:54-59 | path compression keeps every region's member set, and every root's size equal to its member count and under the cap |
| Forest.Link | src/lib/components/sketches/mosaic-morph/script.svelte.ts:74-84 | putting root `l` under root `w` with a high enough rank keeps the forest shaped; exactly the nodes that reached `l` now reach `w` |
| Forest.LinkMembers | src/lib/components/sketches/mosaic-morph/script.svelte.ts:74-84 | after linking, `w`'s region is the union of the two old regions, the two were disjoint, and every other region is unchanged |
| Forest.Singletons | src/lib/components/sketches/mosaic-morph/script.svelte.ts:48-52 | in the identity forest every node is a region of its own |
| Forest.LinkSized | src/lib/components/sketches/mosaic-morph/script.svelte.ts:70-84 | linking two roots whose sizes add up to at most the cap keeps every root's size exact and capped |
| Forest.LinkByRankSized | src/lib/components/sketches/mosaic-morph/script.svelte.ts:72-84 | union by rank: lower rank goes under higher, a tie puts `rootY` under `rootX` and raises its rank by one; the survivor's region is the union of both, and sizes stay exact and capped |
| Forest.LinkedByRankUpdates | src/lib/components/sketches/mosaic-morph/script.svelte.ts:74-84 | union by rank as array updates: the loser points at the survivor, the survivor's size becomes the sum, and its rank rises by one exactly on a tie |
| Forest.FindsThenLink | src/lib/components/sketches/mosaic-morph/script.svelte.ts:65-86 | two finds, which keep every root, followed by union by rank of the roots they return, give the outcome union promises measured against the forest before the finds, and keep sizes exact and capped |
| Forest.UnionStepJoins | src/lib/components/sketches/mosaic-morph/script.svelte.ts:65-86 | union(x, y) seen through the roots: afterwards `x` and `y` share a root exactly when they already did or their sizes fit the cap together; a refusal changes nothing; nodes that shared a root still do; the only nodes newly joined are those of the regions of `x` and `y` |
| Forest.RefusedStep | src/lib/components/sketches/mosaic-morph/script.svelte.ts:65-72 | a union refused because the roots agree or the sizes exceed the cap, after its two finds, shows the same roots, ranks and sizes as before it |
| Forest.UnionedStep | src/lib/components/sketches/mosaic-morph/script.svelte.ts:65-86 | a union that links the two roots by rank shows exactly the roots, ranks and sizes of `UnionStep` |
| Clustering.UnionFind.Root | src/lib/components/sketches/mosaic-morph/script.svelte.ts:54-59 | the root any node reaches is in range and self-parented |
| Clustering.UnionFind.constructor | src/lib/components/sketches/mosaic-morph/script.svelte.ts:48-52 | every cell starts as its own root with rank 0 and size 1, so it is a region `{i}`, and the clusters it shows are those of a fresh forest |
| Clustering.UnionFind.Find | src/lib/components/sketches/mosaic-morph/script.svelte.ts:54-59 | returns the root `r` of `x` with `parent[r] == r` and `parent[x] == r`; no node's root and no region changes; `rank` and `size` are untouched |
| Clustering.UnionFind.GetSize | src/lib/components/sketches/mosaic-morph/script.svelte.ts:61-63 | returns the number of cells in `x`'s region, between 1 and the cap |
| Clustering.UnionFind.Union | src/lib/components/sketches/mosaic-morph/script.svelte.ts:65-86 | merges exactly when the two roots differ and their sizes add up to at most the cap. A refusal keeps `rank`, `size` and every node's root. A merge puts the lower-ranked root under the other, makes the survivor's size the sum, raises its rank by one only on a tie, and makes the survivor's region the union of both. Either way the roots, ranks and sizes it leaves are `UnionStep` of those before it |
| Clustering.UnionFind.LinkRoots | src/lib/components/sketches/mosaic-morph/script.svelte.ts:74-84 | the three union-by-rank branches applied to two distinct roots: the arrays change as union by rank says, every node of either region now reaches the survivor, and the survivor's region is the union |
| Easing.GetEasing | src/lib/components/sketches/mosaic-morph/script.svelte.ts:98-104 | the linear selection is the identity |
| Easing.EasingFixesEndpoints | src/lib/components/sketches/mosaic-morph/script.svelte.ts:90-104 | every curve maps 0 to 0, 1/2 to 1/2 and 1 to 1 |
| Easing.CubicMonotoneInRange | src/lib/components/sketches/mosaic-morph/script.svelte.ts:90-92 | easeInOutCubic maps [0, 1] into [0, 1] and never decreases |
| Easing.QuadMonotoneInRange | src/lib/components/sketches/mosaic-morph/script.svelte.ts:94-96 | easeInOutQuad maps [0, 1] into [0, 1] and never decreases |
| Easing.EasingMonotoneInRange | src/lib/components/sketches/mosaic-morph/script.svelte.ts:98-104 | whichever curve is selected is monotone from [0, 1] into [0, 1] |
| Easing.EasingSymmetric | src/lib/components/sketches/mosaic-morph/script.svelte.ts:90-104 | every curve is point-symmetric about (1/2, 1/2) |
| Colors.LerpBetween | src/lib/components/sketches/mosaic-morph/script.svelte.ts:173-178 | `lerp(a, b, amt)` for `amt` in [0, 1] lies between `a` and `b` |
| Colors.LerpColorEndpoints | src/lib/components/sketches/mosaic-morph/script.svelte.ts:173-178 | lerpColor2 at 0 gives the first colour's channels and at 1 the second's |
| Colors.LerpColorInGamut | src/lib/components/sketches/mosaic-morph/script.svelte.ts:173-178 | two colours with channels in 0..255 interpolate to such a colour for any amount in [0, 1] |
| Colors.LerpColorSame | src/lib/components/sketches/mosaic-morph/script.svelte.ts:173-178 | a colour interpolated with itself stays that colour |
| Geometry.NeighboursMeetAtCenter | src/lib/components/sketches/mosaic-morph/script.svelte.ts:270-271 | the midpoint of the two outline neighbours of any corner is the cell centre, the point a collapsing corner moves to |
| Geometry.SquareOutline | src/lib/components/sketches/mosaic-morph/script.svelte.ts:236-243 | drawSquare emits 4 vertices whose diagonals meet at the centre |
| Geometry.TriangleOutline | src/lib/components/sketches/mosaic-morph/script.svelte.ts:245-260 | drawTriangle emits exactly the 3 corners other than `skipCorner`, in corner order, and never the skipped one |
| Geometry.CellOutline | src/lib/components/sketches/mosaic-morph/script.svelte.ts:375-388 | the draw dispatch draws the current shape unchanged when both states are squares, or both are triangles with the same skipped corner; otherwise it draws a 4-vertex morph |
| Geometry.CollapsedCornerTracesTriangle | src/lib/components/sketches/mosaic-morph/script.svelte.ts:262-289 | four corners with one pulled into the centre draw the same outline as the triangle that skips it |
| Geometry.MorphTriangleEnds | src/lib/components/sketches/mosaic-morph/script.svelte.ts:262-289 | the corners other than the two skipped ones never move; at 0 `fromSkip` sits at the centre and `toSkip` at its corner, and at 1 the reverse |
| Geometry.MorphShapeEnds | src/lib/components/sketches/mosaic-morph/script.svelte.ts:291-318 | only the next state's skipped corner moves, square to triangle, and only the current state's, triangle to square; at 0 and 1 the outline is the square or the collapsed corner of the matching state |
| Geometry.CellOutlineEnds | src/lib/components/sketches/mosaic-morph/script.svelte.ts:375-388 | at eased progress 0 a cell draws its current shape, and at 1 its next shape |
| Geometry.CellOutlineInCell | src/lib/components/sketches/mosaic-morph/script.svelte.ts:364-388 | for eased progress in [0, 1] every vertex a cell emits lies inside the cell |
| Regions.PickIndex | src/lib/components/sketches/mosaic-morph/script.svelte.ts:189-190 | `floor(random(n))` and `random(array)` give a valid index |
| Regions.CeilDiv | src/lib/components/sketches/mosaic-morph/script.svelte.ts:182-183 | `cols = ceil(width / g)` satisfies `cols * g >= width > (cols - 1) * g`, and the same holds for rows |
| Regions.CeilDivAntitone | src/lib/components/sketches/mosaic-morph/script.svelte.ts:182-183 | larger cells give no more columns or rows |
| Regions.RegionColorFromPalette | src/lib/components/sketches/mosaic-morph/script.svelte.ts:219-227 | a region above the threshold gets `'#'` plus an accent colour; any other region gets `'#'` plus a neutral colour, or no modelled colour when no neutral palette is given |
| Regions.CellIndexInGrid | src/lib/components/sketches/mosaic-morph/script.svelte.ts:197-207 | `row * cols + col` is a cell of the grid, and so is its bottom neighbour when `row` is not the last row |
| Regions.CellOfIndex | src/lib/components/sketches/mosaic-morph/script.svelte.ts:364-368 | cell `row * cols + col` lies in row `idx / cols` and column `idx % cols` |
| Regions.BuildGrid | src/lib/components/sketches/mosaic-morph/script.svelte.ts:186-193 | `cols * rows` cells, each square when its draw exceeds 0.5 and skipping corner `floor(4u)` |
| Regions.AttemptInGrid | src/lib/components/sketches/mosaic-morph/script.svelte.ts:197-207 | every union the merge loop attempts joins a cell with its right or bottom neighbour, both inside the grid |
| Regions.StepOfAttemptAt | src/lib/components/sketches/mosaic-morph/script.svelte.ts:197-198 | the attempt at loop step `s` lies in the grid's columns and has step `s`, so the steps enumerate the loop in order |
| Regions.AttemptAtCell | src/lib/components/sketches/mosaic-morph/script.svelte.ts:197-206 | the two steps of cell (`row`, `col`) try its right neighbour, then the cell below |
| Regions.AttemptsInOrder | src/lib/components/sketches/mosaic-morph/script.svelte.ts:197-207 | the attempts recorded before any step are exactly the drawn ones before it, in strictly increasing loop order |
| Regions.CellAttempts | src/lib/components/sketches/mosaic-morph/script.svelte.ts:199-206 | at cell (`row`, `col`) the record grows by the right attempt exactly when the right-merge condition holds, then by the bottom attempt exactly when the bottom-merge condition holds, and each such attempt joins the cell to `idx + 1` or `idx + cols` inside the grid |
| Regions.MergeAllJoins | src/lib/components/sketches/mosaic-morph/script.svelte.ts:197-207 | the cells of every attempt end in one region when they already shared one or their regions fitted the cap together when it was tried, and later unions never split a region |
| Regions.MergeAllNext | src/lib/components/sketches/mosaic-morph/script.svelte.ts:201-206 | one more attempt on the record is one more union, on the attempt's two cells, on top of the fold |
| Regions.CellTried | src/lib/components/sketches/mosaic-morph/script.svelte.ts:199-206 | a cell's attempts, the right neighbour when the right condition holds and then the cell below when the bottom condition holds, each join two cells of the grid |
| Regions.RowTried | src/lib/components/sketches/mosaic-morph/script.svelte.ts:197-207 | a row's attempts, cell by cell, each join two cells of the grid |
| Regions.GridTried | src/lib/components/sketches/mosaic-morph/script.svelte.ts:196-207 | the attempts of the first rows, row by row, each join two cells of the grid |
| Regions.CellTriedBelow | src/lib/components/sketches/mosaic-morph/script.svelte.ts:199-206 | a cell's attempts are exactly the two steps of the loop-order record at that cell |
| Regions.RowTriedBelow | src/lib/components/sketches/mosaic-morph/script.svelte.ts:197-207 | the attempts of the first `k` cells of a row extend the loop-order record, from the row's first step, by exactly its next `2k` steps |
| Regions.GridTriedBelow | src/lib/components/sketches/mosaic-morph/script.svelte.ts:196-207 | the attempts of the first `r` rows, row by row, are exactly the loop-order record before row `r` |
| Regions.MergeStep | src/lib/components/sketches/mosaic-morph/script.svelte.ts:201-206 | a drawn attempt calls union on its two cells and joins the record; an attempt not drawn changes nothing; either way the roots, ranks and sizes stay the fold of union over the record |
| Regions.MergeCell | src/lib/components/sketches/mosaic-morph/script.svelte.ts:199-206 | one cell of the merge loop: union on the right neighbour when its condition holds, then on the bottom neighbour when its condition holds; the record grows by exactly the cell's attempts, the roots, ranks and sizes stay the fold of union over it, and the arrays are untouched when no merge is drawn |
| Regions.MergeRow | src/lib/components/sketches/mosaic-morph/script.svelte.ts:197-207 | one row of the merge loop keeps the union-find valid, leaves its arrays untouched when no merge is drawn, grows the record by exactly the row's attempts, cell by cell, and keeps the roots, ranks and sizes the fold of union over the record |
| Regions.MergeNeighbours | src/lib/components/sketches/mosaic-morph/script.svelte.ts:195-208 | the union-find stays valid, its arrays are untouched when no merge is drawn, and the roots, ranks and sizes it leaves are the fold of union over every drawn attempt in loop order, starting from those it was given |
| Regions.TriedAll | src/lib/components/sketches/mosaic-morph/script.svelte.ts:195-208 | the merge loop tries every drawn attempt, each exactly once, in strictly increasing loop order, and nothing else |
| Regions.CollectRegions | src/lib/components/sketches/mosaic-morph/script.svelte.ts:210-217 | the map lists each cell under its root, each list increasing and non-empty, with no root listed twice in the order; the list lengths add up to the cell count; no region exceeds the cap; no region is coloured yet; the keys come in the order their first cells were met, the order a Map iterates in |
| Regions.CollectCell | src/lib/components/sketches/mosaic-morph/script.svelte.ts:211-217 | one cell of the map loop: `find` moves no root, and the cell joins its root's list, created uncoloured on first sight, keeping the grouping exact for the cells seen so far |
| Regions.FreshFirstSeen | src/lib/components/sketches/mosaic-morph/script.svelte.ts:213-216 | a root first met at cell `i`, after every listed cell, is listed last and keeps the keys in first-seen order |
| Regions.GroupsCapped | src/lib/components/sketches/mosaic-morph/script.svelte.ts:70-72 | when cells are grouped by root in a forest whose region sizes are exact and capped, no list is longer than the cap |
| Regions.ColourRegions | src/lib/components/sketches/mosaic-morph/script.svelte.ts:219-227 | every region keeps its cells and gets `'#'` plus an accent colour above the threshold, `'#'` plus a neutral colour otherwise |
| Regions.AssignRoots | src/lib/components/sketches/mosaic-morph/script.svelte.ts:231-233 | every cell's `regionRoot` becomes `find(i)` and nothing else about it changes |
| Regions.RootsPartition | src/lib/components/sketches/mosaic-morph/script.svelte.ts:210-233 | cells grouped by their roots, with each root recorded on its cell, partition the grid |
| Regions.ClusterCells | src/lib/components/sketches/mosaic-morph/script.svelte.ts:195-233 | the union-find part of generateRegions: cells grouped by idempotent roots, with each cell's root recorded in the grid and its shape kept; lists are uncoloured and capped; with no merge drawn every cell is its own root; the roots are those of the fold of union over every drawn attempt, from a fresh forest |
| Regions.GenerateRegions | src/lib/components/sketches/mosaic-morph/script.svelte.ts:180-234 | the region lists partition `0 .. cols*rows-1` under each cell's `regionRoot`, and their lengths sum to `cols*rows`; every region has between 1 and the cap cells and the colour its size calls for; shapes follow the draws; with no merge drawn every cell is its own root; the keys come in first-seen order, and every cell's `regionRoot` is its root in the fold of union over every drawn attempt, from a fresh forest |
| Regions.GeneratedColours | src/lib/components/sketches/mosaic-morph/script.svelte.ts:219-227 | in any generated mosaic a region above the threshold is coloured from the accent palette, and one at or below it from the neutral palette, or has no colour when there is none |
| Morph.CaptureState | src/lib/components/sketches/mosaic-morph/script.svelte.ts:159-171 | one entry per cell, copying its shape and carrying its region's colour |
| Morph.SnapshotRegionsUniform | src/lib/components/sketches/mosaic-morph/script.svelte.ts:159-171 | in a snapshot all cells of a region share the region's colour |
| Morph.PartitionColourable | src/lib/components/sketches/mosaic-morph/script.svelte.ts:219-227 | with a neutral palette every region of a generated grid has a colour, so the whole grid can be captured |
| Morph.GenerateFilled | src/lib/components/sketches/mosaic-morph/script.svelte.ts:180-234 | generateRegions with the neutral palette gives exactly the generated mosaic (`GeneratedFrom`): dimensions from the canvas, each cell's shape from its draws and its root from the fold of union over the drawn attempts, a partition into regions of 1 to cap cells, and each region's `pick(k)` colour; every cell then has a colour |
| Morph.RenderFrame | src/lib/components/sketches/mosaic-morph/script.svelte.ts:364-390 | one tile per cell, in row-major order, each the interpolated colour and morphed outline of that cell |
| Morph.RenderRow | src/lib/components/sketches/mosaic-morph/script.svelte.ts:365-389 | the column loop appends one tile per cell of the row, each the tile of that cell, keeping the earlier rows |
| Morph.PromotionSeamless | src/lib/components/sketches/mosaic-morph/script.svelte.ts:350-390 | a tile drawn at eased 1 and the same cell drawn at 0 after promotion show the same colour and outline |
| Morph.StillWhenSnapshotsAgree | src/lib/components/sketches/mosaic-morph/script.svelte.ts:395-400 | between equal snapshots, as windowResized leaves them, every tile is the plain shape in its own colour whatever the progress |
| Morph.TileInCell | src/lib/components/sketches/mosaic-morph/script.svelte.ts:364-390 | for eased progress in [0, 1] tiles stay in their cells, and in-gamut colours give an in-gamut fill |
| Morph.ProgressCountsFrames | src/lib/components/sketches/mosaic-morph/script.svelte.ts:392 | from 0, after `k <= frames` draws progress is exactly `k / frames` |
| Morph.TransitionLength | src/lib/components/sketches/mosaic-morph/script.svelte.ts:350-392 | from 0, progress first reaches 1 after exactly `frames` draws |
| Morph.RestartsLikeFresh | src/lib/components/sketches/mosaic-morph/script.svelte.ts:149 | starting at 1, as setup does, the progress runs like one started at 0 |
| Morph.ProgressPeriodic | src/lib/components/sketches/mosaic-morph/script.svelte.ts:350-392 | transitions repeat with period `frames` |
| Morph.NextPalletIndex | src/lib/components/sketches/mosaic-morph/script.svelte.ts:153-157 | the next palette index is always within the palette list |
| Morph.NextIndex | src/lib/components/sketches/mosaic-morph/script.svelte.ts:154 | `(i + 1) % n` is `i + 1`, or 0 after the last index |
| Morph.RotatedIsOffset | src/lib/components/sketches/mosaic-morph/script.svelte.ts:153-157 | `s < n` rotations move `s` places, wrapping round once |
| Morph.RotationVisitsEveryPallet | src/lib/components/sketches/mosaic-morph/script.svelte.ts:153-157 | rotation reaches every palette within `n` changes |
| Morph.MorphSketch.constructor | src/lib/components/sketches/mosaic-morph/script.svelte.ts:320-345 | setup picks the first palette, then generates the grid with that palette as its accent colours (`GeneratedFrom` with `pallets[palletIndex]`), captures both snapshots from it, and leaves progress at 1 |
| Morph.MorphSketch.PickNewPallet | src/lib/components/sketches/mosaic-morph/script.svelte.ts:153-157 | the palette index moves to the next index (rotation) or a drawn one, and the colours are that palette's |
| Morph.MorphSketch.Regenerate | src/lib/components/sketches/mosaic-morph/script.svelte.ts:180-234 | the sketch's grid, region map and key order become the mosaic generated from the draws at the current canvas and grid size with the current palette (`GeneratedFrom`), every region coloured; palette, snapshots and progress stay |
| Morph.MorphSketch.Promote | src/lib/components/sketches/mosaic-morph/script.svelte.ts:350-360 | at the end of a transition the next snapshot becomes current, the palette changes exactly when the roll is under the chance, the grid becomes the mosaic generated with the palette now in force (`GeneratedFrom` with `pallets[palletIndex]`), it is captured as the next snapshot, and progress is 0 |
| Morph.MorphSketch.Draw | src/lib/components/sketches/mosaic-morph/script.svelte.ts:347-393 | at progress of 1 or more it promotes next to current, changes palette when the roll is under the chance, and the grid becomes the mosaic generated with the palette now in force, captured as the next snapshot; otherwise grid, regions, snapshots and palette stay. It renders every cell at the eased value of a progress in [0, 1), and advances progress by `1/frames` |
| Morph.MorphSketch.OnSizeChange | src/lib/components/sketches/mosaic-morph/script.svelte.ts:336-341 | the grid becomes the mosaic generated at the new grid size with the current palette (`GeneratedFrom`), both snapshots are captured from it, and progress resets to 0 |
| Morph.MorphSketch.WindowResized | src/lib/components/sketches/mosaic-morph/script.svelte.ts:395-400 | the grid becomes the mosaic generated for the new canvas with the current palette (`GeneratedFrom`), and both snapshots are captured from it; progress stays as it was |
| StaticMosaic.RenderStaticFrame | sketch.js:147-164 | one tile per cell, in row-major order, each its region's colour with the cell's square or triangle |
| StaticMosaic.RenderStaticRow | sketch.js:148-163 | the column loop appends one tile per cell of the row, each its region's colour with the cell's shape, keeping the earlier rows |
| StaticMosaic.StaticFrameRegionsUniform | sketch.js:140-165 | every cell of a region is drawn in the region's colour, and every tile stays inside its cell |
| StaticMosaic.StaticSketch.constructor | sketch.js:12-24 | the canvas size is recorded and the first palette is drawn at random |
| StaticMosaic.StaticSketch.PickNewPalette | sketch.js:26-30 | the palette is the one the draw selects |
| StaticMosaic.StaticSketch.Draw | sketch.js:140-165 | every frame the grid becomes the mosaic generated from the draws with the current palette and no neutral colours (`GeneratedFrom`): shapes from the draws, roots from the fold of union, capped regions and `pick(k)` accent colours for large regions; then one tile per cell is drawn |
| Sketches.NewMosaicMorph | src/lib/components/sketches/mosaic-morph/script.svelte.ts:9-22 | mosaic-morph's constants: cap 36, threshold 16, merge probability 0.5, roll chance 0.85, rotation over five palettes, cubic easing; the first palette shown is sunset |
| Sketches.NewDriftingMosaic | src/lib/components/sketches/script.ts:4-18 | script.ts's constants: grid 16, cap 24, threshold 4, merge probability 0.5, roll chance 0.6, a random pick among three palettes |
| Sketches.NewStaticMosaic | sketch.js:1-24 | sketch.js's constants: a 3840 by 2160 canvas, grid 15, cap 25, threshold 5, and a random pick among three palettes |
| Sketches.StaticGridDimensions | sketch.js:77-80 | the static mosaic is 256 columns by 144 rows |
| Sketches.DriftTransitionLength | src/lib/components/sketches/script.ts:9 | script.ts's transitions last exactly 25 draws |
| Sketches.MorphTransitionLength | src/lib/components/sketches/mosaic-morph/script.svelte.ts:6-7 | every transition length mosaic-morph's configuration offers (15 to 270) is at least one frame, and a transition then lasts exactly that many draws |
| Sketches.MorphGridBounds | src/lib/components/sketches/mosaic-morph/script.svelte.ts:4-5 | every grid size mosaic-morph's configuration offers (12 to 75) is positive, and gives between the column or row counts of 75- and 12-pixel cells |
| Sketches.MorphRotationCycle | src/lib/components/sketches/mosaic-morph/script.svelte.ts:22 | the five-slot rotation returns to its start after five changes and shows sunset twice on the way |

## Left out

- p5 rendering is not modelled. This covers `createCanvas`, `resizeCanvas`, `background`, `fill`, `noStroke` and `frameRate`. `beginShape`, `vertex` and `endShape` appear only as the returned vertex sequences.
- The blur filter in script.ts is not modelled.
- sketch.js's `setInterval` palette timer and `mousePressed` redraw are not modelled. `PickNewPalette` and `Draw` are the operations they would call.
- The pause and resume controller is not modelled; it only stops and starts frame delivery.
- Parsing `'#rrggbb'` into a `p5.Color`, and the `red`, `green` and `blue` accessors, are not modelled. `MorphSketch` takes the parse as the parameter `colorOf`.
- Colours are exact reals, as is progress. p5's rounding of channels to 8 bits and IEEE accumulation of `1/frames` are not modelled, so with floats a transition can take one draw more than `TransitionLength` says.
- Random draws are injected as separate streams, not one sequential stream. The model states what each call receives, not the order of calls.
- sketch.js colours small regions with `random(pallets[2])`, which is applied to an object and not prefixed with `'#'`. That branch has no clear meaning, so those regions carry `None` as their colour.
- `Clustering.UnionFind.Union`: a refused merge leaves `rank`, `size`, every root and every region as they were. It is not stated that `parent` is unchanged, because the two finds before the refusal compress paths. The same applies to `MergeNeighbours` when a merge was drawn but refused.
- mosaic-morph reads `config.getGridSize()` on every regeneration. The model changes the grid size only through `OnSizeChange`. A size change made without that hook would leave `currentState` sized for the old grid, and that is not modelled.
- `Morph.MorphSketch.Draw` requires `frames >= 1`. A transition-frame count of 0 would divide by zero in the source.
- Regions are not proved to be connected through their neighbour merges. The model gives every cell's root as the fold of union over the drawn attempts, and proves that each accepted attempt leaves its two cells in one region (`MergeAllJoins`) and that a single union joins only the two regions it was given (`UnionStepJoins`). It does not lift that last fact over the whole fold, so "two cells share a region only through a chain of accepted merges" is not stated.
- script.ts's `pickNewPallet` keeps no index. The model still records the index it chose, which is what `NextPalletIndex` returns for `RandomPick`.
