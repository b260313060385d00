/** generateRegions: lay a `cols` x `rows` grid of cells over the canvas,
    give each cell a random shape, merge random right and bottom neighbours
    through the capacity-bounded union-find, group the cells by root into
    regions (in the order a JavaScript Map keeps, first insertion first),
    colour each region by its size and record every cell's region root.

    Every `p.random()` call is an injected draw in [0, 1): cell `i` reads
    `shape(i)`, `corner(i)`, `mergeRight(i)` and `mergeDown(i)`, and the
    `k`-th region in Map order reads `pick(k)`. */
module Regions {
  import opened Forest
  import opened Clustering
  import opened Geometry

  datatype Option<T> = None | Some(value: T)

  datatype GridCell = GridCell(isSquare: bool, skipCorner: Corner, regionRoot: int)

  /** a region's cells and its fill, `None` until a colour is assigned */
  datatype Region = Region(cells: seq<int>, color: Option<string>)

  datatype Draws = Draws(shape: nat -> real, corner: nat -> real, mergeRight: nat -> real,
                         mergeDown: nat -> real, pick: nat -> real)

  /** the layout generateRegions leaves behind: grid dimensions, the cells,
      the region map, and the Map's key order */
  datatype Mosaic = Mosaic(cols: nat, rows: nat, grid: seq<GridCell>, regions: map<int, Region>, order: seq<int>)

  /** every stream of draws holds values of `p.random()`, in [0, 1) */
  ghost predicate UnitDraws(d: Draws) {
    forall i: nat ::
      && 0.0 <= d.shape(i) < 1.0 && 0.0 <= d.corner(i) < 1.0
      && 0.0 <= d.mergeRight(i) < 1.0 && 0.0 <= d.mergeDown(i) < 1.0
      && 0.0 <= d.pick(i) < 1.0
  }

  /** a draw in [0, 1) scales a positive length to somewhere below it */
  lemma ScaleBelow(u: real, x: real)
    requires 0.0 <= u < 1.0 && 0.0 < x
    ensures 0.0 <= u * x < x
  {
    var v := 1.0 - u;
    assert x - u * x == v * x;
    assert 0.0 < v;
  }

  /** the floor of a value in [0, n) is an index below `n` */
  lemma FloorBelow(x: real, n: nat)
    requires 0.0 <= x < n as real
    ensures 0 <= x.Floor < n
    ensures x.Floor as real <= x < x.Floor as real + 1.0
  {
  }

  /** `p.floor(u * len)`: the index `p.random(array)` and `p.floor(p.random(4))`
      select from a draw `u` */
  function PickIndex(u: real, len: nat): (k: nat)
    requires 0.0 <= u < 1.0 && len > 0
    ensures k < len
    ensures k as real <= u * len as real < k as real + 1.0
  {
    var x := u * len as real;
    ScaleBelow(u, len as real);
    FloorBelow(x, len);
    x.Floor
  }

  /** `p.ceil(a / g)`: the fewest cells of side `g` that cover a length `a` */
  function CeilDiv(a: nat, g: nat): (c: nat)
    requires g > 0
    ensures c * g >= a && (c - 1) * g < a
  {
    var c := (a + g - 1) / g;
    assert c * g + (a + g - 1) % g == a + g - 1;
    c
  }

  /** larger cells give no more columns or rows */
  lemma CeilDivAntitone(a: nat, g: nat, g': nat)
    requires 0 < g <= g'
    ensures CeilDiv(a, g') <= CeilDiv(a, g)
  {
    var c: int, c': int := CeilDiv(a, g), CeilDiv(a, g');
    MulMonotone(g, g', c);
    if c' - 1 >= c {
      MulMonotone(c, c' - 1, g');
    }
  }

  /** the fill a region with `n` cells gets from draw `u`: '#' and a colour
      of `accent` above the threshold, '#' and a colour of `neutral`
      otherwise; `None` where the neutral pick is not modelled */
  function RegionColor(n: nat, threshold: nat, accent: seq<string>, neutral: Option<seq<string>>, u: real): Option<string>
    requires 0.0 <= u < 1.0 && |accent| > 0 && (neutral.Some? ==> |neutral.value| > 0)
  {
    if n > threshold then Some("#" + accent[PickIndex(u, |accent|)])
    else if neutral.Some? then Some("#" + neutral.value[PickIndex(u, |neutral.value|)])
    else None
  }

  /** `color` is '#' followed by one of the palette's hex strings */
  predicate FromPalette(color: Option<string>, palette: seq<string>) {
    color.Some? && exists h <- palette :: color.value == "#" + h
  }

  lemma RegionColorFromPalette(n: nat, threshold: nat, accent: seq<string>, neutral: Option<seq<string>>, u: real)
    requires 0.0 <= u < 1.0 && |accent| > 0 && (neutral.Some? ==> |neutral.value| > 0)
    ensures n > threshold ==> FromPalette(RegionColor(n, threshold, accent, neutral, u), accent)
    ensures n <= threshold && neutral.Some? ==> FromPalette(RegionColor(n, threshold, accent, neutral, u), neutral.value)
    ensures n <= threshold && neutral.None? ==> RegionColor(n, threshold, accent, neutral, u) == None
  {
    if n > threshold {
      assert accent[PickIndex(u, |accent|)] in accent;
    } else if neutral.Some? {
      assert neutral.value[PickIndex(u, |neutral.value|)] in neutral.value;
    }
  }

  /** row * cols + col is a cell of the grid, one past it is still inside
      when `col` is not the last column, and one row down is still inside
      when `row` is not the last row */
  lemma CellIndexInGrid(row: nat, col: nat, rows: nat, cols: nat)
    requires row < rows && col < cols
    ensures 0 <= row * cols && row * cols + col < rows * cols && row * cols + cols <= rows * cols
    ensures row < rows - 1 ==> row * cols + col + cols < rows * cols
  {
    MulMonotone(row + 1, rows, cols);
    assert (row + 1) * cols == row * cols + cols;
    if row < rows - 1 {
      MulMonotone(row + 2, rows, cols);
      assert (row + 2) * cols == row * cols + cols + cols;
    }
  }

  lemma MulAtLeast(a: int, d: int)
    requires a >= 1 && d >= 0
    ensures a * d >= d
  {
    assert a * d == (a - 1) * d + d;
  }

  lemma MulMonotone(a: int, b: int, c: int)
    requires a <= b && c >= 0
    ensures a * c <= b * c
  {
    assert b * c - a * c == (b - a) * c;
  }

  /** `n / d` and `n % d` are the only quotient and remainder in [0, d) */
  lemma DivModUnique(n: int, d: int, q: int, r: int)
    requires d > 0 && 0 <= r < d && n == q * d + r
    ensures n / d == q && n % d == r
  {
    var q', r' := n / d, n % d;
    assert n == q' * d + r' && 0 <= r' < d;
    assert (q - q') * d == r' - r;
    if q > q' {
      MulAtLeast(q - q', d);
    } else if q < q' {
      MulAtLeast(q' - q, d);
    }
  }

  /** cell row * cols + col is found again in row idx / cols, column idx % cols */
  lemma CellOfIndex(row: nat, col: nat, cols: nat)
    requires col < cols
    ensures (row * cols + col) / cols == row && (row * cols + col) % cols == col
  {
    DivModUnique(row * cols + col, cols, row, col);
  }

  predicate Increasing(s: seq<int>) {
    forall j, k :: 0 <= j < k < |s| ==> s[j] < s[k]
  }

  predicate Distinct(s: seq<int>) {
    forall j, k :: 0 <= j < k < |s| ==> s[j] != s[k]
  }

  /** an increasing list drawn from a set is no longer than the set */
  lemma {:induction false} IncreasingWithin(s: seq<int>, S: set<int>)
    requires Increasing(s) && forall c <- s :: c in S
    ensures |s| <= |S|
    decreases |s|
  {
    if s != [] {
      var last := s[|s| - 1];
      var t := s[..|s| - 1];
      forall c <- t ensures c in S - {last} {
        assert c < last;
      }
      IncreasingWithin(t, S - {last});
    }
  }

  /** every listed root is a key of the map */
  predicate Listed(regions: map<int, Region>, order: seq<int>) {
    forall j :: 0 <= j < |order| ==> order[j] in regions
  }

  /** the number of cells over the regions listed in `order` */
  function CellTotal(regions: map<int, Region>, order: seq<int>): nat
    requires Listed(regions, order)
  {
    if order == [] then 0
    else CellTotal(regions, order[..|order| - 1]) + |regions[order[|order| - 1]].cells|
  }

  /** changing a region that is not listed leaves the total alone */
  lemma {:induction false} CellTotalFrame(regions: map<int, Region>, order: seq<int>, r: int, v: Region)
    requires Listed(regions, order)
    requires r !in order
    ensures CellTotal(regions[r := v], order) == CellTotal(regions, order)
  {
    if order != [] {
      CellTotalFrame(regions, order[..|order| - 1], r, v);
    }
  }

  /** one more cell in a listed region adds one to the total */
  lemma {:induction false} CellTotalGrow(regions: map<int, Region>, order: seq<int>, r: int, v: Region)
    requires Listed(regions, order)
    requires Distinct(order) && r in order
    requires |v.cells| == |regions[r].cells| + 1
    ensures CellTotal(regions[r := v], order) == CellTotal(regions, order) + 1
  {
    var init := order[..|order| - 1];
    if order[|order| - 1] == r {
      assert r !in init;
      CellTotalFrame(regions, init, r, v);
    } else {
      assert r in init;
      CellTotalGrow(regions, init, r, v);
    }
  }

  /** regions with the same cell counts have the same total */
  lemma {:induction false} CellTotalSameSizes(regions: map<int, Region>, regions': map<int, Region>, order: seq<int>)
    requires Listed(regions, order) && Listed(regions', order)
    requires forall j :: 0 <= j < |order| ==> |regions'[order[j]].cells| == |regions[order[j]].cells|
    ensures CellTotal(regions', order) == CellTotal(regions, order)
  {
    if order != [] {
      CellTotalSameSizes(regions, regions', order[..|order| - 1]);
    }
  }

  /** the Map's keys are exactly the listed roots, each listed once */
  ghost predicate Keyed(regions: map<int, Region>, order: seq<int>) {
    && Distinct(order)
    && Listed(regions, order)
    && (forall r <- regions :: r in order)
  }

  /** the keys are listed in the order their first cells were met: the
      insertion order a JavaScript Map iterates in */
  ghost predicate FirstSeen(regions: map<int, Region>, order: seq<int>) {
    forall j, k ::
      (0 <= j < k < |order| && order[j] in regions && order[k] in regions
       && |regions[order[j]].cells| > 0 && |regions[order[k]].cells| > 0) ==>
      regions[order[j]].cells[0] < regions[order[k]].cells[0]
  }

  /** the regions partition the cells 0 .. |grid|-1: every cell is listed in
      the region of its recorded root, every listed cell records that root,
      each list is increasing, each root is a cell of its own region, and
      the list lengths add up to the number of cells */
  ghost predicate Partitioned(grid: seq<GridCell>, regions: map<int, Region>, order: seq<int>) {
    && Keyed(regions, order) && FirstSeen(regions, order)
    && (forall i :: 0 <= i < |grid| ==> grid[i].regionRoot in regions && i in regions[grid[i].regionRoot].cells)
    && (forall r <- regions :: Increasing(regions[r].cells) && r in regions[r].cells)
    && (forall r <- regions :: forall c <- regions[r].cells :: 0 <= c < |grid| && grid[c].regionRoot == r)
    && CellTotal(regions, order) == |grid|
  }

  /** the grid loop: cell `i` is a square when its draw exceeds 0.5 and skips
      corner floor(4 u) otherwise; its region root starts at 0 */
  method BuildGrid(total: nat, draws: Draws) returns (grid: seq<GridCell>)
    requires UnitDraws(draws)
    ensures |grid| == total
    ensures forall i :: 0 <= i < total ==>
      && grid[i].isSquare == (draws.shape(i) > 0.5)
      && grid[i].skipCorner == PickIndex(draws.corner(i), 4)
      && grid[i].regionRoot == 0
  {
    grid := [];
    var i := 0;
    while i < total
      invariant 0 <= i <= total && |grid| == i
      invariant forall j :: 0 <= j < i ==>
        && grid[j].isSquare == (draws.shape(j) > 0.5)
        && grid[j].skipCorner == PickIndex(draws.corner(j), 4)
        && grid[j].regionRoot == 0
    {
      grid := grid + [GridCell(draws.shape(i) > 0.5, PickIndex(draws.corner(i), 4), 0)];
      i := i + 1;
    }
  }

  /** no merge draw falls under the merge probability */
  predicate NoMergeDrawn(draws: Draws, total: nat, mergeProbability: real) {
    forall i :: 0 <= i < total ==> draws.mergeRight(i) >= mergeProbability && draws.mergeDown(i) >= mergeProbability
  }

  /** one try of the merge loop: cell (`row`, `col`) with its right
      neighbour, or with the cell below it */
  datatype Attempt = Attempt(row: nat, col: nat, right: bool)

  /** the cell an attempt starts from */
  function From(a: Attempt, cols: nat): nat {
    a.row * cols + a.col
  }

  /** the neighbour an attempt hands to union */
  function To(a: Attempt, cols: nat): nat {
    if a.right then From(a, cols) + 1 else From(a, cols) + cols
  }

  /** the attempt's place in the loop: cell by cell, right before down */
  function Step(a: Attempt, cols: nat): nat {
    2 * From(a, cols) + if a.right then 0 else 1
  }

  /** the loop tries `a`: the neighbour exists and the draw for it falls
      under the merge probability */
  ghost predicate Drawn(a: Attempt, cols: nat, rows: nat, mergeProbability: real, draws: Draws) {
    && a.row < rows && a.col < cols
    && if a.right then a.col < cols - 1 && draws.mergeRight(From(a, cols)) < mergeProbability
       else a.row < rows - 1 && draws.mergeDown(From(a, cols)) < mergeProbability
  }

  /** `tried` holds, in loop order, exactly the drawn attempts whose step
      is below `bound` */
  ghost predicate TriedBefore(tried: seq<Attempt>, cols: nat, rows: nat, mergeProbability: real, draws: Draws, bound: int) {
    && (forall k :: 0 <= k < |tried| ==>
          Drawn(tried[k], cols, rows, mergeProbability, draws) && Step(tried[k], cols) < bound)
    && (forall j, k :: 0 <= j < k < |tried| ==> Step(tried[j], cols) < Step(tried[k], cols))
    && (forall a: Attempt :: Drawn(a, cols, rows, mergeProbability, draws) && Step(a, cols) < bound ==> a in tried)
  }

  /** an attempt joins two horizontally or vertically adjacent cells of the grid */
  lemma AttemptInGrid(a: Attempt, cols: nat, rows: nat, mergeProbability: real, draws: Draws)
    requires Drawn(a, cols, rows, mergeProbability, draws)
    ensures From(a, cols) < To(a, cols) < cols * rows
    ensures a.right ==> To(a, cols) == From(a, cols) + 1 && a.col + 1 < cols
    ensures !a.right ==> To(a, cols) == From(a, cols) + cols && a.row + 1 < rows
  {
    CellIndexInGrid(a.row, a.col, rows, cols);
    if a.right {
      CellIndexInGrid(a.row, a.col + 1, rows, cols);
    }
  }

  /** two attempts inside the grid at the same step are the same attempt */
  lemma StepInjective(a: Attempt, b: Attempt, cols: nat)
    requires a.col < cols && b.col < cols && Step(a, cols) == Step(b, cols)
    ensures a == b
  {
    assert From(a, cols) == From(b, cols) && a.right == b.right;
    CellOfIndex(a.row, a.col, cols);
    CellOfIndex(b.row, b.col, cols);
  }

  /** the record after the loop reaches attempt `a`: kept when drawn */
  ghost function Recorded(tried: seq<Attempt>, a: Attempt, cols: nat, rows: nat, mergeProbability: real, draws: Draws): seq<Attempt> {
    if Drawn(a, cols, rows, mergeProbability, draws) then tried + [a] else tried
  }

  /** the loop reaches step `Step(a)`: a drawn attempt there is recorded,
      anything else is passed over */
  lemma TriedStep(tried: seq<Attempt>, a: Attempt, cols: nat, rows: nat, mergeProbability: real, draws: Draws)
    requires a.col < cols
    requires TriedBefore(tried, cols, rows, mergeProbability, draws, Step(a, cols))
    ensures TriedBefore(Recorded(tried, a, cols, rows, mergeProbability, draws), cols, rows, mergeProbability, draws,
                        Step(a, cols) + 1)
  {
    var tried' := Recorded(tried, a, cols, rows, mergeProbability, draws);
    forall b: Attempt | Drawn(b, cols, rows, mergeProbability, draws) && Step(b, cols) < Step(a, cols) + 1
      ensures b in tried'
    {
      if Step(b, cols) == Step(a, cols) {
        StepInjective(a, b, cols);
      } else {
        assert b in tried;
      }
    }
  }

  /** the attempt the loop makes at step `s`: cell s/2, its right
      neighbour on even steps and the cell below on odd ones */
  function AttemptAt(s: nat, cols: nat): Attempt
    requires cols > 0
  {
    Attempt((s / 2) / cols, (s / 2) % cols, s % 2 == 0)
  }

  /** `AttemptAt` walks the loop's steps in order */
  lemma StepOfAttemptAt(s: nat, cols: nat)
    requires cols > 0
    ensures AttemptAt(s, cols).col < cols && Step(AttemptAt(s, cols), cols) == s
  {
    var h := s / 2;
    assert From(AttemptAt(s, cols), cols) == h by {
      assert h == (h / cols) * cols + h % cols;
    }
  }

  /** the two steps of cell (`row`, `col`) try its right neighbour, then
      the cell below it */
  lemma AttemptAtCell(row: nat, col: nat, cols: nat)
    requires col < cols
    ensures AttemptAt(2 * (row * cols + col), cols) == Attempt(row, col, true)
    ensures AttemptAt(2 * (row * cols + col) + 1, cols) == Attempt(row, col, false)
  {
    var idx := row * cols + col;
    DivModUnique(2 * idx, 2, idx, 0);
    DivModUnique(2 * idx + 1, 2, idx, 1);
    CellOfIndex(row, col, cols);
  }

  /** every attempt joins two cells of a grid of `n` cells */
  predicate WithinGrid(tried: seq<Attempt>, cols: nat, n: nat) {
    forall k :: 0 <= k < |tried| ==> To(tried[k], cols) < n
  }

  /** the attempts the merge loop makes before step `s`, in loop order */
  ghost function AttemptsBelow(s: nat, cols: nat, rows: nat, mergeProbability: real, draws: Draws): (tried: seq<Attempt>)
    ensures WithinGrid(tried, cols, cols * rows)
  {
    if s == 0 || cols == 0 then []
    else
      var a := AttemptAt(s - 1, cols);
      if Drawn(a, cols, rows, mergeProbability, draws) then
        AttemptInGrid(a, cols, rows, mergeProbability, draws);
        AttemptsBelow(s - 1, cols, rows, mergeProbability, draws) + [a]
      else AttemptsBelow(s - 1, cols, rows, mergeProbability, draws)
  }

  /** the attempts the whole merge loop makes */
  ghost function DrawnAttempts(cols: nat, rows: nat, mergeProbability: real, draws: Draws): seq<Attempt> {
    AttemptsBelow(2 * (rows * cols), cols, rows, mergeProbability, draws)
  }

  /** the attempts before step `s` are exactly the drawn ones, in loop order */
  lemma {:induction false} AttemptsInOrder(s: nat, cols: nat, rows: nat, mergeProbability: real, draws: Draws)
    ensures TriedBefore(AttemptsBelow(s, cols, rows, mergeProbability, draws), cols, rows, mergeProbability, draws, s)
  {
    if cols == 0 {
      forall a: Attempt | Drawn(a, cols, rows, mergeProbability, draws) ensures false {
      }
    } else if s > 0 {
      AttemptsInOrder(s - 1, cols, rows, mergeProbability, draws);
      AttemptsInOrderNext(s - 1, cols, rows, mergeProbability, draws);
    }
  }

  /** one more step of the loop keeps the record exactly the drawn attempts
      before it, in loop order */
  lemma AttemptsInOrderNext(s: nat, cols: nat, rows: nat, mergeProbability: real, draws: Draws)
    requires cols > 0
    requires TriedBefore(AttemptsBelow(s, cols, rows, mergeProbability, draws), cols, rows, mergeProbability, draws, s)
    ensures TriedBefore(AttemptsBelow(s + 1, cols, rows, mergeProbability, draws), cols, rows, mergeProbability, draws, s + 1)
  {
    var a := AttemptAt(s, cols);
    StepOfAttemptAt(s, cols);
    TriedStep(AttemptsBelow(s, cols, rows, mergeProbability, draws), a, cols, rows, mergeProbability, draws);
    AttemptsNext(s, a, cols, rows, mergeProbability, draws);
  }

  /** the merge loop tries every drawn attempt, each exactly once, in loop
      order, and nothing else */
  lemma TriedAll(cols: nat, rows: nat, mergeProbability: real, draws: Draws)
    ensures var tried := DrawnAttempts(cols, rows, mergeProbability, draws);
      && (forall k :: 0 <= k < |tried| ==> Drawn(tried[k], cols, rows, mergeProbability, draws))
      && (forall j, k :: 0 <= j < k < |tried| ==> Step(tried[j], cols) < Step(tried[k], cols))
      && (forall a: Attempt :: Drawn(a, cols, rows, mergeProbability, draws) ==> a in tried)
  {
    var tried := DrawnAttempts(cols, rows, mergeProbability, draws);
    AttemptsInOrder(2 * (rows * cols), cols, rows, mergeProbability, draws);
    forall a: Attempt | Drawn(a, cols, rows, mergeProbability, draws) ensures a in tried {
      AttemptInGrid(a, cols, rows, mergeProbability, draws);
    }
  }

  /** the clusters after union is called on each attempt of `tried`, in order */
  function MergeAll(c: Clusters, cap: int, tried: seq<Attempt>, cols: nat): (c': Clusters)
    requires Labelled(c) && WithinGrid(tried, cols, |c.roots|)
    ensures Labelled(c') && |c'.roots| == |c.roots|
    decreases |tried|
  {
    if tried == [] then c
    else
      var a := tried[|tried| - 1];
      UnionStep(MergeAll(c, cap, tried[..|tried| - 1], cols), cap, From(a, cols), To(a, cols))
  }

  /** one more attempt on the record is one more union on top of the fold */
  lemma MergeAllNext(c: Clusters, cap: int, tried: seq<Attempt>, a: Attempt, cols: nat)
    requires Labelled(c) && WithinGrid(tried, cols, |c.roots|) && To(a, cols) < |c.roots|
    ensures WithinGrid(tried + [a], cols, |c.roots|)
    ensures MergeAll(c, cap, tried + [a], cols) ==
      UnionStep(MergeAll(c, cap, tried, cols), cap, From(a, cols), To(a, cols))
  {
    assert (tried + [a])[..|tried|] == tried;
  }

  /** the cells of attempt `k` end in one region when they already shared
      one or their regions fitted the cap together when it was tried: union
      joins them then, and later unions never split a region */
  lemma {:induction false} MergeAllJoins(c: Clusters, cap: int, tried: seq<Attempt>, cols: nat, k: nat)
    requires Labelled(c) && WithinGrid(tried, cols, |c.roots|) && k < |tried|
    ensures var before, after := MergeAll(c, cap, tried[..k], cols), MergeAll(c, cap, tried, cols);
      var f, t := From(tried[k], cols), To(tried[k], cols);
      before.roots[f] == before.roots[t] || before.size[before.roots[f]] + before.size[before.roots[t]] <= cap ==>
        after.roots[f] == after.roots[t]
  {
    var n := |tried| - 1;
    var prev := tried[..n];
    var mid := MergeAll(c, cap, prev, cols);
    var a := tried[n];
    UnionStepJoins(mid, cap, From(a, cols), To(a, cols));
    if k < n {
      assert prev[..k] == tried[..k];
      MergeAllJoins(c, cap, prev, cols, k);
    } else {
      assert tried[..k] == prev;
    }
  }

  /** the record grows by the attempt at step `s` exactly when it is drawn */
  lemma AttemptsNext(s: nat, a: Attempt, cols: nat, rows: nat, mergeProbability: real, draws: Draws)
    requires cols > 0 && a == AttemptAt(s, cols)
    ensures AttemptsBelow(s + 1, cols, rows, mergeProbability, draws) ==
      Recorded(AttemptsBelow(s, cols, rows, mergeProbability, draws), a, cols, rows, mergeProbability, draws)
  {
  }

  /** cell (`row`, `col`) at loop step `step`: the record grows by the
      right attempt when the right-merge condition holds, then by the bottom
      attempt when the bottom-merge condition holds, and each such attempt
      joins the cell to a neighbour inside the grid */
  lemma CellAttempts(row: nat, col: nat, cols: nat, rows: nat, mergeProbability: real, draws: Draws, step: nat)
    requires row < rows && col < cols && step == 2 * (row * cols + col)
    ensures var idx := row * cols + col;
      var right, down := Attempt(row, col, true), Attempt(row, col, false);
      var t0 := AttemptsBelow(step, cols, rows, mergeProbability, draws);
      var t1 := AttemptsBelow(step + 1, cols, rows, mergeProbability, draws);
      && From(right, cols) == idx && To(right, cols) == idx + 1
      && From(down, cols) == idx && To(down, cols) == idx + cols
      && (col < cols - 1 && draws.mergeRight(idx) < mergeProbability ==> t1 == t0 + [right] && idx + 1 < cols * rows)
      && (!(col < cols - 1 && draws.mergeRight(idx) < mergeProbability) ==> t1 == t0)
      && (row < rows - 1 && draws.mergeDown(idx) < mergeProbability ==>
            AttemptsBelow(step + 2, cols, rows, mergeProbability, draws) == t1 + [down] && idx + cols < cols * rows)
      && (!(row < rows - 1 && draws.mergeDown(idx) < mergeProbability) ==>
            AttemptsBelow(step + 2, cols, rows, mergeProbability, draws) == t1)
  {
    var right, down := Attempt(row, col, true), Attempt(row, col, false);
    AttemptAtCell(row, col, cols);
    AttemptsNext(step, right, cols, rows, mergeProbability, draws);
    AttemptsNext(step + 1, down, cols, rows, mergeProbability, draws);
    if Drawn(right, cols, rows, mergeProbability, draws) {
      AttemptInGrid(right, cols, rows, mergeProbability, draws);
    }
    if Drawn(down, cols, rows, mergeProbability, draws) {
      AttemptInGrid(down, cols, rows, mergeProbability, draws);
    }
  }

  /** the attempts cell (`row`, `col`) makes: its right neighbour unless it
      is in the last column, then the cell below unless `row` is the last
      row, each only when its draw falls under the merge probability */
  function CellTried(row: nat, col: nat, cols: nat, rows: nat, mergeProbability: real, draws: Draws): (tried: seq<Attempt>)
    requires row < rows && col < cols
    ensures WithinGrid(tried, cols, cols * rows)
  {
    var idx := row * cols + col;
    CellIndexInGrid(row, col, rows, cols);
    (if col < cols - 1 && draws.mergeRight(idx) < mergeProbability then
       CellIndexInGrid(row, col + 1, rows, cols); [Attempt(row, col, true)]
     else []) +
    (if row < rows - 1 && draws.mergeDown(idx) < mergeProbability then [Attempt(row, col, false)] else [])
  }

  /** the attempts the first `k` cells of row `row` make, cell by cell */
  function RowTried(row: nat, k: nat, cols: nat, rows: nat, mergeProbability: real, draws: Draws): (tried: seq<Attempt>)
    requires row < rows && k <= cols
    ensures WithinGrid(tried, cols, cols * rows)
  {
    if k == 0 then []
    else RowTried(row, k - 1, cols, rows, mergeProbability, draws) + CellTried(row, k - 1, cols, rows, mergeProbability, draws)
  }

  /** the attempts the first `r` rows make, row by row */
  function GridTried(r: nat, cols: nat, rows: nat, mergeProbability: real, draws: Draws): (tried: seq<Attempt>)
    requires r <= rows
    ensures WithinGrid(tried, cols, cols * rows)
  {
    if r == 0 then []
    else GridTried(r - 1, cols, rows, mergeProbability, draws) + RowTried(r - 1, cols, cols, rows, mergeProbability, draws)
  }

  /** a cell's attempts are the loop-order record's two steps at that cell */
  lemma CellTriedBelow(row: nat, col: nat, cols: nat, rows: nat, mergeProbability: real, draws: Draws, step: nat)
    requires row < rows && col < cols && step == 2 * (row * cols + col)
    ensures AttemptsBelow(step, cols, rows, mergeProbability, draws) + CellTried(row, col, cols, rows, mergeProbability, draws) ==
      AttemptsBelow(step + 2, cols, rows, mergeProbability, draws)
  {
    CellIndexInGrid(row, col, rows, cols);
    var idx: nat := row * cols + col;
    CellAttempts(row, col, cols, rows, mergeProbability, draws, step);
    var t0 := AttemptsBelow(step, cols, rows, mergeProbability, draws);
    var r: seq<Attempt> := if col < cols - 1 && draws.mergeRight(idx) < mergeProbability then [Attempt(row, col, true)] else [];
    var d: seq<Attempt> := if row < rows - 1 && draws.mergeDown(idx) < mergeProbability then [Attempt(row, col, false)] else [];
    assert CellTried(row, col, cols, rows, mergeProbability, draws) == r + d;
    assert t0 + (r + d) == (t0 + r) + d;
  }

  /** the first `k` cells of a row extend the loop-order record, from the
      row's first step `base`, by their attempts */
  lemma {:induction false} RowTriedBelow(row: nat, k: nat, cols: nat, rows: nat, mergeProbability: real, draws: Draws,
                                         base: nat)
    requires row < rows && k <= cols && base == 2 * (row * cols)
    ensures AttemptsBelow(base, cols, rows, mergeProbability, draws) + RowTried(row, k, cols, rows, mergeProbability, draws) ==
      AttemptsBelow(base + 2 * k, cols, rows, mergeProbability, draws)
  {
    if k > 0 {
      RowTriedBelow(row, k - 1, cols, rows, mergeProbability, draws, base);
      CellTriedBelow(row, k - 1, cols, rows, mergeProbability, draws, base + 2 * (k - 1));
      assert base + 2 * (k - 1) + 2 == base + 2 * k;
      var t := AttemptsBelow(base, cols, rows, mergeProbability, draws);
      var before := RowTried(row, k - 1, cols, rows, mergeProbability, draws);
      var cell := CellTried(row, k - 1, cols, rows, mergeProbability, draws);
      assert t + (before + cell) == (t + before) + cell;
    }
  }

  /** the rows before row `r` start `cols` cells before row `r` does */
  lemma RowStart(r: nat, cols: nat)
    requires r > 0
    ensures 0 <= (r - 1) * cols && (r - 1) * cols + cols == r * cols
  {
  }

  /** the first `r` rows make, in loop order, exactly the attempts the
      record holds before row `r` */
  lemma {:induction false} GridTriedBelow(r: nat, cols: nat, rows: nat, mergeProbability: real, draws: Draws)
    requires r <= rows
    ensures GridTried(r, cols, rows, mergeProbability, draws) == AttemptsBelow(2 * (r * cols), cols, rows, mergeProbability, draws)
  {
    if r > 0 {
      RowStart(r, cols);
      var base: nat := 2 * ((r - 1) * cols);
      GridTriedBelow(r - 1, cols, rows, mergeProbability, draws);
      RowTriedBelow(r - 1, cols, cols, rows, mergeProbability, draws, base);
      assert base + 2 * cols == 2 * (r * cols);
    }
  }

  /** a record followed by a cell's attempts: the right attempt when its
      draw is taken, then the down attempt when its draw is taken */
  lemma CellTriedSteps(tried: seq<Attempt>, row: nat, col: nat, cols: nat, rows: nat, mergeProbability: real, draws: Draws,
                       idx: nat, right: bool, down: bool)
    requires row < rows && col < cols && idx == row * cols + col
    requires right == (col < cols - 1 && draws.mergeRight(idx) < mergeProbability)
    requires down == (row < rows - 1 && draws.mergeDown(idx) < mergeProbability)
    ensures var t1 := if right then tried + [Attempt(row, col, true)] else tried;
      tried + CellTried(row, col, cols, rows, mergeProbability, draws) ==
        if down then t1 + [Attempt(row, col, false)] else t1
  {
    var r: seq<Attempt> := if right then [Attempt(row, col, true)] else [];
    var d: seq<Attempt> := if down then [Attempt(row, col, false)] else [];
    assert tried + (r + d) == (tried + r) + d;
  }

  /** a record followed by the first `k` cells of a row, then by cell `k` */
  lemma RowTriedSteps(tried: seq<Attempt>, row: nat, k: nat, cols: nat, rows: nat, mergeProbability: real, draws: Draws)
    requires row < rows && k < cols
    ensures (tried + RowTried(row, k, cols, rows, mergeProbability, draws)) + CellTried(row, k, cols, rows, mergeProbability, draws) ==
      tried + RowTried(row, k + 1, cols, rows, mergeProbability, draws)
  {
    var before := RowTried(row, k, cols, rows, mergeProbability, draws);
    var cell := CellTried(row, k, cols, rows, mergeProbability, draws);
    assert (tried + before) + cell == tried + (before + cell);
  }

  /** one attempt of the loop: when it is drawn, union on its two cells and
      the record grows by it; either way the clusters stay the fold of union
      from `c0` over the record */
  method MergeStep(uf: UnionFind, drawn: bool, a: Attempt, cols: nat, ghost c0: Clusters, ghost tried: seq<Attempt>)
    returns (ghost tried': seq<Attempt>)
    requires uf.Valid() && Labelled(c0) && |c0.roots| == uf.n
    requires WithinGrid(tried, cols, uf.n) && (drawn ==> To(a, cols) < uf.n)
    requires uf.State() == MergeAll(c0, uf.maxSize, tried, cols)
    modifies uf.parent, uf.rank, uf.size
    ensures uf.Valid() && WithinGrid(tried', cols, uf.n)
    ensures tried' == if drawn then tried + [a] else tried
    ensures !drawn ==> uf.parent[..] == old(uf.parent[..]) && uf.rank[..] == old(uf.rank[..]) && uf.size[..] == old(uf.size[..])
    ensures uf.State() == MergeAll(c0, uf.maxSize, tried', cols)
  {
    tried' := tried;
    if drawn {
      MergeAllNext(c0, uf.maxSize, tried, a, cols);
      var _ := uf.Union(From(a, cols), To(a, cols));
      tried' := tried + [a];
    }
  }

  /** one cell of the merge loop: cell (`row`, `col`) tries its right
      neighbour unless it is in the last column, then its bottom neighbour
      unless `row` is the last row, each when its draw falls under the merge
      probability; the clusters stay the fold of union from `c0` over the
      record, which grows by the cell's attempts */
  method MergeCell(uf: UnionFind, row: nat, col: nat, cols: nat, rows: nat, mergeProbability: real, draws: Draws,
                   ghost c0: Clusters, ghost tried: seq<Attempt>)
    returns (ghost tried': seq<Attempt>)
    requires uf.Valid() && uf.n == cols * rows && row < rows && col < cols
    requires Labelled(c0) && |c0.roots| == uf.n && WithinGrid(tried, cols, uf.n)
    requires uf.State() == MergeAll(c0, uf.maxSize, tried, cols)
    modifies uf.parent, uf.rank, uf.size
    ensures uf.Valid()
    ensures NoMergeDrawn(draws, cols * rows, mergeProbability) ==>
      uf.parent[..] == old(uf.parent[..]) && uf.rank[..] == old(uf.rank[..]) && uf.size[..] == old(uf.size[..])
    ensures tried' == tried + CellTried(row, col, cols, rows, mergeProbability, draws) && WithinGrid(tried', cols, uf.n)
    ensures uf.State() == MergeAll(c0, uf.maxSize, tried', cols)
  {
    CellIndexInGrid(row, col, rows, cols);
    var idx: nat := row * cols + col;
    var right := col < cols - 1 && draws.mergeRight(idx) < mergeProbability;
    var down := row < rows - 1 && draws.mergeDown(idx) < mergeProbability;
    assert NoMergeDrawn(draws, cols * rows, mergeProbability) ==> !right && !down;
    CellTriedSteps(tried, row, col, cols, rows, mergeProbability, draws, idx, right, down);
    var t1 := MergeStep(uf, right, Attempt(row, col, true), cols, c0, tried);
    tried' := MergeStep(uf, down, Attempt(row, col, false), cols, c0, t1);
  }

  /** one row of the merge loop, cell by cell; the record grows by the
      row's attempts */
  method MergeRow(uf: UnionFind, row: nat, cols: nat, rows: nat, mergeProbability: real, draws: Draws,
                  ghost c0: Clusters, ghost tried: seq<Attempt>)
    returns (ghost tried': seq<Attempt>)
    requires uf.Valid() && uf.n == cols * rows && row < rows
    requires Labelled(c0) && |c0.roots| == uf.n && WithinGrid(tried, cols, uf.n)
    requires uf.State() == MergeAll(c0, uf.maxSize, tried, cols)
    modifies uf.parent, uf.rank, uf.size
    ensures uf.Valid()
    ensures NoMergeDrawn(draws, cols * rows, mergeProbability) ==>
      uf.parent[..] == old(uf.parent[..]) && uf.rank[..] == old(uf.rank[..]) && uf.size[..] == old(uf.size[..])
    ensures tried' == tried + RowTried(row, cols, cols, rows, mergeProbability, draws) && WithinGrid(tried', cols, uf.n)
    ensures uf.State() == MergeAll(c0, uf.maxSize, tried', cols)
  {
    tried' := tried;
    var col := 0;
    while col < cols
      invariant col <= cols && uf.Valid()
      invariant NoMergeDrawn(draws, cols * rows, mergeProbability) ==>
        uf.parent[..] == old(uf.parent[..]) && uf.rank[..] == old(uf.rank[..]) && uf.size[..] == old(uf.size[..])
      invariant tried' == tried + RowTried(row, col, cols, rows, mergeProbability, draws) && WithinGrid(tried', cols, uf.n)
      invariant uf.State() == MergeAll(c0, uf.maxSize, tried', cols)
    {
      RowTriedSteps(tried, row, col, cols, rows, mergeProbability, draws);
      tried' := MergeCell(uf, row, col, cols, rows, mergeProbability, draws, c0, tried');
      col := col + 1;
    }
  }

  /** the merge loop, row by row: the clusters it leaves are those of
      calling union on every drawn attempt in loop order */
  method MergeNeighbours(uf: UnionFind, cols: nat, rows: nat, mergeProbability: real, draws: Draws)
    requires uf.Valid() && uf.n == cols * rows
    modifies uf.parent, uf.rank, uf.size
    ensures uf.Valid()
    ensures NoMergeDrawn(draws, cols * rows, mergeProbability) ==>
      uf.parent[..] == old(uf.parent[..]) && uf.rank[..] == old(uf.rank[..]) && uf.size[..] == old(uf.size[..])
    ensures uf.State() == MergeAll(old(uf.State()), uf.maxSize, DrawnAttempts(cols, rows, mergeProbability, draws), cols)
  {
    ghost var start := uf.State();
    ghost var tried: seq<Attempt> := [];
    var row := 0;
    while row < rows
      invariant row <= rows && uf.Valid()
      invariant NoMergeDrawn(draws, cols * rows, mergeProbability) ==>
        uf.parent[..] == old(uf.parent[..]) && uf.rank[..] == old(uf.rank[..]) && uf.size[..] == old(uf.size[..])
      invariant tried == GridTried(row, cols, rows, mergeProbability, draws)
      invariant uf.State() == MergeAll(start, uf.maxSize, tried, cols)
    {
      tried := MergeRow(uf, row, cols, rows, mergeProbability, draws, start, tried);
      row := row + 1;
    }
    GridTriedBelow(rows, cols, rows, mergeProbability, draws);
  }

  /** `regions` lists each cell `i` under key `roots[i]`: every cell is in
      the list of its root, every listed cell has that root, each list is
      increasing, and the list lengths add up to the number of cells */
  ghost predicate GroupedBy(regions: map<int, Region>, order: seq<int>, roots: seq<int>) {
    && Keyed(regions, order) && FirstSeen(regions, order)
    && CellTotal(regions, order) == |roots|
    && (forall i :: 0 <= i < |roots| ==> roots[i] in regions && i in regions[roots[i]].cells)
    && (forall r <- regions :: Increasing(regions[r].cells) && |regions[r].cells| >= 1)
    && (forall r <- regions :: forall c <- regions[r].cells :: 0 <= c < |roots| && roots[c] == r)
  }

  /** the region map after the first `i` cells: `GroupedBy` restricted to
      them, with every region still uncoloured */
  ghost predicate GroupedUpTo(regions: map<int, Region>, order: seq<int>, roots: seq<int>, i: nat)
    requires i <= |roots|
  {
    && Keyed(regions, order) && FirstSeen(regions, order)
    && CellTotal(regions, order) == i
    && (forall j :: 0 <= j < i ==> roots[j] in regions && j in regions[roots[j]].cells)
    && (forall r <- regions :: regions[r].color == None && Increasing(regions[r].cells) && |regions[r].cells| >= 1)
    && (forall r <- regions :: forall c <- regions[r].cells :: 0 <= c < i && roots[c] == r)
  }

  /** appending cell `i` to the list of its root, creating the list on first
      sight, extends the grouping by one cell */
  lemma GroupNext(regions: map<int, Region>, order: seq<int>, roots: seq<int>, i: nat,
                  regions': map<int, Region>, order': seq<int>)
    requires i < |roots| && GroupedUpTo(regions, order, roots, i)
    requires roots[i] in regions ==>
      order' == order && regions' == regions[roots[i] := Region(regions[roots[i]].cells + [i], None)]
    requires roots[i] !in regions ==>
      order' == order + [roots[i]] && regions' == regions[roots[i] := Region([i], None)]
    ensures GroupedUpTo(regions', order', roots, i + 1)
  {
    if roots[i] in regions {
      GroupExisting(regions, order, roots, i);
    } else {
      GroupFresh(regions, order, roots, i);
    }
  }

  lemma GroupExisting(regions: map<int, Region>, order: seq<int>, roots: seq<int>, i: nat)
    requires i < |roots| && GroupedUpTo(regions, order, roots, i) && roots[i] in regions
    ensures GroupedUpTo(regions[roots[i] := Region(regions[roots[i]].cells + [i], None)], order, roots, i + 1)
  {
    var root := roots[i];
    var cells := regions[root].cells;
    var regions' := regions[root := Region(cells + [i], None)];
    CellTotalGrow(regions, order, root, regions'[root]);
    forall k | 0 <= k < |cells| ensures cells[k] < i {
      assert cells[k] in regions[root].cells;
    }
    assert Increasing(cells + [i]);
    forall j | 0 <= j < i + 1 ensures roots[j] in regions' && j in regions'[roots[j]].cells {
      if j < i && roots[j] == root {
        assert j in cells;
      }
    }
  }

  lemma GroupFresh(regions: map<int, Region>, order: seq<int>, roots: seq<int>, i: nat)
    requires i < |roots| && GroupedUpTo(regions, order, roots, i) && roots[i] !in regions
    ensures GroupedUpTo(regions[roots[i] := Region([i], None)], order + [roots[i]], roots, i + 1)
  {
    var root := roots[i];
    FreshFirstSeen(regions, order, root, i);
    FreshKeyed(regions, order, root, i);
    FreshCovers(regions, roots, i);
    FreshCells(regions, roots, i);
  }

  /** a key first met at cell `i`, after every listed cell, goes last */
  lemma FreshFirstSeen(regions: map<int, Region>, order: seq<int>, root: int, i: nat)
    requires Listed(regions, order) && FirstSeen(regions, order) && root !in regions
    requires forall r <- regions :: forall c <- regions[r].cells :: c < i
    ensures FirstSeen(regions[root := Region([i], None)], order + [root])
  {
    var regions', order' := regions[root := Region([i], None)], order + [root];
    forall j, k | 0 <= j < k < |order'| && order'[j] in regions' && order'[k] in regions'
                  && |regions'[order'[j]].cells| > 0 && |regions'[order'[k]].cells| > 0
      ensures regions'[order'[j]].cells[0] < regions'[order'[k]].cells[0]
    {
      assert order'[j] == order[j] && order[j] in regions;
      if k == |order| {
        assert regions'[order'[j]].cells[0] in regions[order[j]].cells;
      } else {
        assert order'[k] == order[k] && order[k] in regions;
      }
    }
  }

  lemma FreshKeyed(regions: map<int, Region>, order: seq<int>, root: int, i: nat)
    requires Keyed(regions, order) && CellTotal(regions, order) == i && root !in regions
    ensures Keyed(regions[root := Region([i], None)], order + [root])
    ensures CellTotal(regions[root := Region([i], None)], order + [root]) == i + 1
  {
    CellTotalFrame(regions, order, root, Region([i], None));
  }

  lemma FreshCovers(regions: map<int, Region>, roots: seq<int>, i: nat)
    requires i < |roots| && roots[i] !in regions
    requires forall j :: 0 <= j < i ==> roots[j] in regions && j in regions[roots[j]].cells
    ensures var regions' := regions[roots[i] := Region([i], None)];
      forall j :: 0 <= j < i + 1 ==> roots[j] in regions' && j in regions'[roots[j]].cells
  {
  }

  lemma FreshCells(regions: map<int, Region>, roots: seq<int>, i: nat)
    requires i < |roots| && roots[i] !in regions
    requires forall r <- regions :: regions[r].color == None && Increasing(regions[r].cells) && |regions[r].cells| >= 1
    requires forall r <- regions :: forall c <- regions[r].cells :: 0 <= c < i && roots[c] == r
    ensures var regions' := regions[roots[i] := Region([i], None)];
      && (forall r <- regions' :: regions'[r].color == None && Increasing(regions'[r].cells) && |regions'[r].cells| >= 1)
      && (forall r <- regions' :: forall c <- regions'[r].cells :: 0 <= c < i + 1 && roots[c] == r)
  {
  }

  /** one turn of the region-map loop: cell `i` is appended to the list of
      `find(i)`, which is created, uncoloured, on its first cell */
  method CollectCell(uf: UnionFind, i: nat, regions: map<int, Region>, order: seq<int>, ghost roots: seq<int>)
    returns (regions': map<int, Region>, order': seq<int>)
    requires uf.Valid() && uf.Roots() == roots && i < uf.n && GroupedUpTo(regions, order, roots, i)
    modifies uf.parent
    ensures uf.Valid() && uf.Roots() == roots && GroupedUpTo(regions', order', roots, i + 1)
  {
    var root := uf.Find(i);
    assert uf.Roots() == roots && root == roots[i];
    regions', order' := regions, order;
    if root !in regions' {
      regions' := regions'[root := Region([], None)];
      order' := order' + [root];
    }
    regions' := regions'[root := regions'[root].(cells := regions'[root].cells + [i])];
    assert root in regions ==> regions[root].color == None;
    assert root !in regions ==> [] + [i] == [i];
    GroupNext(regions, order, roots, i, regions', order');
  }

  /** the region-map loop over every cell; no list outgrows the
      union-find's cap */
  method CollectRegions(uf: UnionFind) returns (regions: map<int, Region>, order: seq<int>)
    requires uf.Valid()
    modifies uf.parent
    ensures uf.Valid() && uf.Roots() == old(uf.Roots())
    ensures GroupedBy(regions, order, uf.Roots())
    ensures forall r <- regions :: regions[r].color == None && |regions[r].cells| <= uf.maxSize
  {
    ghost var roots := uf.Roots();
    regions, order := map[], [];
    var i := 0;
    while i < uf.n
      invariant 0 <= i <= uf.n
      invariant uf.Valid() && uf.Roots() == roots
      invariant GroupedUpTo(regions, order, roots, i)
    {
      regions, order := CollectCell(uf, i, regions, order, roots);
      i := i + 1;
    }
    GroupsCapped(regions, order, roots, uf.parent[..], uf.rank[..], uf.size[..], uf.maxSize);
  }

  /** grouping the cells by their roots in a forest whose regions are capped
      gives lists no longer than the cap */
  lemma GroupsCapped(regions: map<int, Region>, order: seq<int>, roots: seq<int>,
                     parent: seq<int>, rank: seq<int>, size: seq<int>, cap: int)
    requires Sized(parent, rank, size, cap) && |roots| == |parent|
    requires forall i :: 0 <= i < |roots| ==> roots[i] == Forest.Root(parent, rank, i)
    requires GroupedBy(regions, order, roots)
    ensures forall r <- regions :: |regions[r].cells| <= cap
  {
    forall r <- regions ensures |regions[r].cells| <= cap {
      var c := regions[r].cells[0];
      assert c in regions[r].cells;
      assert IsRoot(parent, r) by {
        assert r == roots[c] == Forest.Root(parent, rank, c);
      }
      forall c' <- regions[r].cells ensures c' in Members(parent, rank, r) {
        assert Forest.Root(parent, rank, c') == roots[c'];
      }
      IncreasingWithin(regions[r].cells, Members(parent, rank, r));
    }
  }

  /** the colouring loop: the `k`-th region in Map order takes its fill
      from draw `pick(k)`, by its size */
  method ColourRegions(regions: map<int, Region>, order: seq<int>, threshold: nat,
                       accent: seq<string>, neutral: Option<seq<string>>, pick: nat -> real)
    returns (coloured: map<int, Region>)
    requires Keyed(regions, order)
    requires forall k: nat :: 0.0 <= pick(k) < 1.0
    requires |accent| > 0 && (neutral.Some? ==> |neutral.value| > 0)
    ensures coloured.Keys == regions.Keys
    ensures forall k :: 0 <= k < |order| ==>
      coloured[order[k]] == Region(regions[order[k]].cells,
                                   RegionColor(|regions[order[k]].cells|, threshold, accent, neutral, pick(k)))
    ensures forall r <- coloured :: coloured[r].cells == regions[r].cells
    ensures forall r <- coloured :: |coloured[r].cells| > threshold ==> FromPalette(coloured[r].color, accent)
    ensures forall r <- coloured :: |coloured[r].cells| <= threshold ==>
      if neutral.Some? then FromPalette(coloured[r].color, neutral.value) else coloured[r].color == None
  {
    coloured := regions;
    var k := 0;
    while k < |order|
      invariant 0 <= k <= |order|
      invariant coloured.Keys == regions.Keys
      invariant forall j :: 0 <= j < k ==>
        coloured[order[j]] == Region(regions[order[j]].cells,
                                     RegionColor(|regions[order[j]].cells|, threshold, accent, neutral, pick(j)))
      invariant forall j :: k <= j < |order| ==> coloured[order[j]] == regions[order[j]]
    {
      var region := regions[order[k]];
      coloured := coloured[order[k] := Region(region.cells, RegionColor(|region.cells|, threshold, accent, neutral, pick(k)))];
      k := k + 1;
    }
    forall r <- coloured
      ensures coloured[r].cells == regions[r].cells
      ensures |coloured[r].cells| > threshold ==> FromPalette(coloured[r].color, accent)
      ensures |coloured[r].cells| <= threshold ==>
        if neutral.Some? then FromPalette(coloured[r].color, neutral.value) else coloured[r].color == None
    {
      var j :| 0 <= j < |order| && order[j] == r;
      RegionColorFromPalette(|regions[r].cells|, threshold, accent, neutral, pick(j));
    }
  }

  /** the last loop: every cell records `find(i)` as its region root */
  method AssignRoots(grid: seq<GridCell>, uf: UnionFind) returns (grid': seq<GridCell>)
    requires uf.Valid() && |grid| == uf.n
    modifies uf.parent
    ensures uf.Valid() && uf.Roots() == old(uf.Roots())
    ensures |grid'| == |grid|
    ensures forall i :: 0 <= i < |grid| ==> grid'[i] == grid[i].(regionRoot := uf.Roots()[i])
  {
    ghost var roots := uf.Roots();
    grid' := grid;
    var i := 0;
    while i < |grid|
      invariant 0 <= i <= |grid| && |grid'| == |grid|
      invariant uf.Valid() && uf.Roots() == roots
      invariant forall j :: 0 <= j < i ==> grid'[j] == grid[j].(regionRoot := roots[j])
      invariant forall j :: i <= j < |grid| ==> grid'[j] == grid[j]
    {
      var root := uf.Find(i);
      assert uf.Roots() == roots && root == roots[i];
      grid' := grid'[i := grid'[i].(regionRoot := root)];
      i := i + 1;
    }
  }

  /** cell `i` of a `cols` x `rows` grid has the shape its draws give, and
      as root its root in the fold of union over the drawn attempts, from a
      fresh forest */
  ghost predicate CellGenerated(grid: seq<GridCell>, i: int, cols: nat, rows: nat, maxSize: nat,
                                mergeProbability: real, draws: Draws)
  {
    && 0 <= i < |grid| == cols * rows
    && 0.0 <= draws.corner(i) < 1.0
    && grid[i].isSquare == (draws.shape(i) > 0.5) && grid[i].skipCorner == PickIndex(draws.corner(i), 4)
    && grid[i].regionRoot == MergeAll(Fresh(|grid|), maxSize, DrawnAttempts(cols, rows, mergeProbability, draws), cols).roots[i]
  }

  /** the `k`-th region in key order has the colour its size calls for,
      chosen by the draw `pick(k)` */
  ghost predicate RegionPicked(regions: map<int, Region>, order: seq<int>, k: int, threshold: nat,
                               accent: seq<string>, neutral: Option<seq<string>>, draws: Draws)
  {
    && 0 <= k < |order| && order[k] in regions
    && 0.0 <= draws.pick(k) < 1.0 && |accent| > 0 && (neutral.Some? ==> |neutral.value| > 0)
    && regions[order[k]].color == RegionColor(|regions[order[k]].cells|, threshold, accent, neutral, draws.pick(k))
  }

  /** `cols`, `rows`, `grid` and `regions`, with `order` the Map's key
      order, are the mosaic generateRegions builds from `draws` on a
      `width` x `height` canvas with `accent` as the palette for the large
      regions: the grid's dimensions, every cell generated from its draws,
      the partition into regions of 1 to `maxSize` cells, and every region
      coloured by its pick */
  ghost predicate GeneratedFrom(cols: nat, rows: nat, grid: seq<GridCell>, regions: map<int, Region>, order: seq<int>,
                                width: nat, height: nat, gridSize: nat, maxSize: nat, threshold: nat,
                                mergeProbability: real, accent: seq<string>, neutral: Option<seq<string>>,
                                draws: Draws)
  {
    && gridSize > 0
    && cols == CeilDiv(width, gridSize) && rows == CeilDiv(height, gridSize)
    && |grid| == cols * rows
    && Partitioned(grid, regions, order)
    && (forall r <- regions :: 1 <= |regions[r].cells| <= maxSize)
    && (forall i :: 0 <= i < |grid| ==> CellGenerated(grid, i, cols, rows, maxSize, mergeProbability, draws))
    && (forall k :: 0 <= k < |order| ==> RegionPicked(regions, order, k, threshold, accent, neutral, draws))
  }

  /** in a generated mosaic a region larger than the threshold has a
      colour of the accent palette, and a smaller one a neutral colour or
      none */
  lemma GeneratedColours(cols: nat, rows: nat, grid: seq<GridCell>, regions: map<int, Region>, order: seq<int>,
                         width: nat, height: nat, gridSize: nat, maxSize: nat, threshold: nat,
                         mergeProbability: real, accent: seq<string>, neutral: Option<seq<string>>, draws: Draws)
    requires GeneratedFrom(cols, rows, grid, regions, order, width, height, gridSize, maxSize, threshold,
                           mergeProbability, accent, neutral, draws)
    ensures forall r <- regions :: |regions[r].cells| > threshold ==> FromPalette(regions[r].color, accent)
    ensures forall r <- regions :: |regions[r].cells| <= threshold ==>
      if neutral.Some? then FromPalette(regions[r].color, neutral.value) else regions[r].color == None
  {
    forall r <- regions
      ensures |regions[r].cells| > threshold ==> FromPalette(regions[r].color, accent)
      ensures |regions[r].cells| <= threshold ==>
        if neutral.Some? then FromPalette(regions[r].color, neutral.value) else regions[r].color == None
    {
      var k :| 0 <= k < |order| && order[k] == r;
      assert RegionPicked(regions, order, k, threshold, accent, neutral, draws);
      RegionColorFromPalette(|regions[r].cells|, threshold, accent, neutral, draws.pick(k));
    }
  }

  /** generateRegions, for a canvas of `width` x `height` pixels and cells
      of side `gridSize` */
  method GenerateRegions(width: nat, height: nat, gridSize: nat, maxSize: nat, threshold: nat,
                         mergeProbability: real, accent: seq<string>, neutral: Option<seq<string>>,
                         draws: Draws)
    returns (m: Mosaic)
    requires gridSize > 0 && maxSize > 0
    requires |accent| > 0 && (neutral.Some? ==> |neutral.value| > 0)
    requires UnitDraws(draws)
    ensures m.cols == CeilDiv(width, gridSize) && m.rows == CeilDiv(height, gridSize)
    ensures |m.grid| == m.cols * m.rows
    ensures Partitioned(m.grid, m.regions, m.order)
    ensures forall i :: 0 <= i < |m.grid| ==>
      m.grid[i].isSquare == (draws.shape(i) > 0.5) && m.grid[i].skipCorner == PickIndex(draws.corner(i), 4)
    ensures forall r <- m.regions :: 1 <= |m.regions[r].cells| <= maxSize
    ensures forall k :: 0 <= k < |m.order| ==>
      m.regions[m.order[k]].color == RegionColor(|m.regions[m.order[k]].cells|, threshold, accent, neutral, draws.pick(k))
    ensures forall r <- m.regions :: |m.regions[r].cells| > threshold ==> FromPalette(m.regions[r].color, accent)
    ensures forall r <- m.regions :: |m.regions[r].cells| <= threshold ==>
      if neutral.Some? then FromPalette(m.regions[r].color, neutral.value) else m.regions[r].color == None
    ensures NoMergeDrawn(draws, |m.grid|, mergeProbability) ==>
      forall i :: 0 <= i < |m.grid| ==> m.grid[i].regionRoot == i
    ensures var merged := MergeAll(Fresh(|m.grid|), maxSize, DrawnAttempts(m.cols, m.rows, mergeProbability, draws), m.cols);
      forall i :: 0 <= i < |m.grid| ==> m.grid[i].regionRoot == merged.roots[i]
  {
    var cols := CeilDiv(width, gridSize);
    var rows := CeilDiv(height, gridSize);
    var grid := BuildGrid(cols * rows, draws);
    ghost var roots;
    var collected, order;
    grid, collected, order, roots := ClusterCells(grid, cols, rows, maxSize, mergeProbability, draws);
    var regions := ColourRegions(collected, order, threshold, accent, neutral, draws.pick);
    m := Mosaic(cols, rows, grid, regions, order);
    RootsPartition(grid, collected, regions, order, roots);
  }

  /** the union-find part of generateRegions: merge neighbours, group the
      cells by root in Map insertion order, and record each cell's root */
  method ClusterCells(grid: seq<GridCell>, cols: nat, rows: nat, maxSize: nat, mergeProbability: real, draws: Draws)
    returns (grid': seq<GridCell>, collected: map<int, Region>, order: seq<int>, ghost roots: seq<int>)
    requires |grid| == cols * rows && maxSize > 0
    ensures GroupedBy(collected, order, roots)
    ensures forall i :: 0 <= i < |roots| ==> 0 <= roots[i] < |roots| && roots[roots[i]] == roots[i]
    ensures |grid'| == |roots| == |grid| && forall i :: 0 <= i < |grid| ==> grid'[i] == grid[i].(regionRoot := roots[i])
    ensures forall r <- collected :: collected[r].color == None && |collected[r].cells| <= maxSize
    ensures NoMergeDrawn(draws, |grid|, mergeProbability) ==> forall i :: 0 <= i < |grid| ==> roots[i] == i
    ensures roots == MergeAll(Fresh(|grid|), maxSize, DrawnAttempts(cols, rows, mergeProbability, draws), cols).roots
  {
    var total := cols * rows;
    var uf := new UnionFind(total, maxSize);
    MergeNeighbours(uf, cols, rows, mergeProbability, draws);
    roots := uf.Roots();
    assert NoMergeDrawn(draws, total, mergeProbability) ==> forall i :: 0 <= i < total ==> roots[i] == i by {
      if NoMergeDrawn(draws, total, mergeProbability) {
        forall i | 0 <= i < total ensures roots[i] == i {
          assert uf.parent[i] == i;
        }
      }
    }
    collected, order := CollectRegions(uf);
    grid' := AssignRoots(grid, uf);
  }

  /** grouping by the union-find's roots, recolouring the regions and
      recording each cell's root in the grid give a partition of the grid */
  lemma RootsPartition(grid: seq<GridCell>, collected: map<int, Region>, regions: map<int, Region>,
                       order: seq<int>, roots: seq<int>)
    requires GroupedBy(collected, order, roots)
    requires forall i :: 0 <= i < |roots| ==> 0 <= roots[i] < |roots| && roots[roots[i]] == roots[i]
    requires regions.Keys == collected.Keys && forall r <- regions :: regions[r].cells == collected[r].cells
    requires |grid| == |roots| && forall i :: 0 <= i < |grid| ==> grid[i].regionRoot == roots[i]
    ensures Partitioned(grid, regions, order)
  {
    forall r <- regions ensures r in regions[r].cells {
      var c := regions[r].cells[0];
      assert c in collected[r].cells;
      assert r == roots[c] && roots[r] == r;
      assert r in collected[roots[r]].cells;
      assert roots[c] == r;
    }
    CellTotalSameSizes(collected, regions, order);
  }
}
