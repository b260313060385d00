/** The outline each grid cell is drawn with, as the vertex sequence it would
    emit between beginShape and endShape(CLOSE). A cell of side `g` has its
    top-left corner at (x, y); screen y grows downwards. */
module Geometry {
  import opened Colors

  /** a corner index: 0 top-left, 1 top-right, 2 bottom-right, 3 bottom-left */
  type Corner = c: int | 0 <= c < 4

  datatype Point = Point(x: real, y: real)

  function LerpPoint(a: Point, b: Point, t: real): Point {
    Point(Lerp(a.x, b.x, t), Lerp(a.y, b.y, t))
  }

  function Midpoint(a: Point, b: Point): Point {
    Point((a.x + b.x) / 2.0, (a.y + b.y) / 2.0)
  }

  /** the four corners in the order top-left, top-right, bottom-right,
      bottom-left; drawSquare emits exactly these */
  function Corners(x: real, y: real, g: real): (c: seq<Point>)
    ensures |c| == 4
  {
    [Point(x, y), Point(x + g, y), Point(x + g, y + g), Point(x, y + g)]
  }

  function Center(x: real, y: real, g: real): Point {
    Point(x + g / 2.0, y + g / 2.0)
  }

  /** `s` with the element at `k` removed, the rest in order */
  function Without<T>(s: seq<T>, k: nat): (r: seq<T>)
    requires k < |s|
    ensures |r| == |s| - 1
    ensures forall j :: 0 <= j < |r| ==> r[j] == s[if j < k then j else j + 1]
  {
    s[..k] + s[k + 1..]
  }

  /** the two corners beside corner `k` in the closed outline are opposite
      corners of the cell, so their midpoint is the centre */
  lemma NeighboursMeetAtCenter(x: real, y: real, g: real, k: Corner)
    ensures Midpoint(Corners(x, y, g)[(k + 3) % 4], Corners(x, y, g)[(k + 1) % 4]) == Center(x, y, g)
  {
  }

  /** drawSquare: the four corners in order */
  function SquareOutline(x: real, y: real, g: real): (v: seq<Point>)
    ensures |v| == 4
    ensures Midpoint(v[0], v[2]) == Center(x, y, g) == Midpoint(v[1], v[3])
  {
    Corners(x, y, g)
  }

  /** drawTriangle: the three corners other than `skip`, in corner order */
  function TriangleOutline(x: real, y: real, g: real, skip: Corner): (v: seq<Point>)
    ensures |v| == 3
    ensures forall j :: 0 <= j < 3 ==> v[j] == Corners(x, y, g)[if j < skip then j else j + 1]
    ensures g != 0.0 ==> Corners(x, y, g)[skip] !in v
  {
    Without(Corners(x, y, g), skip)
  }

  /** drawMorphingTriangle's vertex `i`: the corner `fromSkip` grows out of
      the centre, the corner `toSkip` shrinks into it, the others stay put */
  function MorphTriangleVertex(x: real, y: real, g: real, fromSkip: int, toSkip: int, t: real, i: Corner): Point {
    var c := Corners(x, y, g)[i];
    if i == fromSkip then LerpPoint(Center(x, y, g), c, t)
    else if i == toSkip then LerpPoint(c, Center(x, y, g), t)
    else c
  }

  /** drawMorphingTriangle: always four vertices, one per corner */
  function MorphTriangleOutline(x: real, y: real, g: real, fromSkip: int, toSkip: int, t: real): (v: seq<Point>)
    ensures |v| == 4
  {
    seq(4, i requires 0 <= i < 4 => MorphTriangleVertex(x, y, g, fromSkip, toSkip, t, i))
  }

  /** drawMorphingShape's vertex `i`: square to triangle pulls the next
      state's skipped corner into the centre; triangle to square pushes the
      current state's skipped corner out of it */
  function MorphShapeVertex(x: real, y: real, g: real, fromSquare: bool, fromSkip: int,
                            toSquare: bool, toSkip: int, t: real, i: Corner): Point {
    var c := Corners(x, y, g)[i];
    if fromSquare && !toSquare && i == toSkip then LerpPoint(c, Center(x, y, g), t)
    else if !fromSquare && toSquare && i == fromSkip then LerpPoint(Center(x, y, g), c, t)
    else c
  }

  /** drawMorphingShape: always four vertices, one per corner */
  function MorphShapeOutline(x: real, y: real, g: real, fromSquare: bool, fromSkip: int,
                             toSquare: bool, toSkip: int, t: real): (v: seq<Point>)
    ensures |v| == 4
  {
    seq(4, i requires 0 <= i < 4 => MorphShapeVertex(x, y, g, fromSquare, fromSkip, toSquare, toSkip, t, i))
  }

  /** the shape a cell state stands for when drawn on its own */
  function StaticOutline(x: real, y: real, g: real, isSquare: bool, skip: Corner): seq<Point> {
    if isSquare then SquareOutline(x, y, g) else TriangleOutline(x, y, g, skip)
  }

  /** the draw loop's choice per cell: the plain square or triangle when the
      two states have the same shape, drawMorphingTriangle for two triangles
      with different skipped corners, drawMorphingShape otherwise */
  function CellOutline(x: real, y: real, g: real, currSquare: bool, currSkip: Corner,
                       nextSquare: bool, nextSkip: Corner, t: real): (v: seq<Point>)
    ensures currSquare == nextSquare && (currSquare || currSkip == nextSkip) ==>
      v == StaticOutline(x, y, g, currSquare, currSkip)
    ensures !(currSquare == nextSquare && (currSquare || currSkip == nextSkip)) ==> |v| == 4
  {
    if currSquare == nextSquare then
      if currSquare then SquareOutline(x, y, g)
      else if currSkip == nextSkip then TriangleOutline(x, y, g, currSkip)
      else MorphTriangleOutline(x, y, g, currSkip, nextSkip, t)
    else MorphShapeOutline(x, y, g, currSquare, currSkip, nextSquare, nextSkip, t)
  }

  /** `poly` draws the same closed outline as `shape`: either it is `shape`,
      or it has one extra vertex sitting at the midpoint of its two
      neighbours, a point on the edge between them, whose removal gives `shape` */
  ghost predicate Traces(poly: seq<Point>, shape: seq<Point>) {
    || poly == shape
    || (&& |poly| == 4
        && exists k: Corner :: && poly[k] == Midpoint(poly[(k + 3) % 4], poly[(k + 1) % 4])
                               && Without(poly, k) == shape)
  }

  /** the four corners with corner `k` pulled into the centre trace the
      triangle that skips `k` */
  lemma CollapsedCornerTracesTriangle(x: real, y: real, g: real, k: Corner)
    ensures Traces(Corners(x, y, g)[k := Center(x, y, g)], TriangleOutline(x, y, g, k))
  {
    var c := Corners(x, y, g);
    var poly := c[k := Center(x, y, g)];
    NeighboursMeetAtCenter(x, y, g, k);
    assert poly[(k + 3) % 4] == c[(k + 3) % 4] && poly[(k + 1) % 4] == c[(k + 1) % 4];
    assert Without(poly, k) == Without(c, k);
  }

  /** drawMorphingTriangle pins every corner other than the two skipped ones
      for the whole transition; at progress 0 the current skipped corner sits
      at the centre and the next one at its true place, at progress 1 the
      other way round */
  lemma MorphTriangleEnds(x: real, y: real, g: real, fromSkip: Corner, toSkip: Corner, t: real)
    requires fromSkip != toSkip
    ensures forall i: Corner :: i != fromSkip && i != toSkip ==>
      MorphTriangleOutline(x, y, g, fromSkip, toSkip, t)[i] == Corners(x, y, g)[i]
    ensures MorphTriangleOutline(x, y, g, fromSkip, toSkip, 0.0) == Corners(x, y, g)[fromSkip := Center(x, y, g)]
    ensures MorphTriangleOutline(x, y, g, fromSkip, toSkip, 1.0) == Corners(x, y, g)[toSkip := Center(x, y, g)]
  {
  }

  /** drawMorphingShape moves only the next state's skipped corner on the
      way from square to triangle and only the current state's skipped corner
      on the way from triangle to square, and at progress 0 and 1 gives the
      square or the collapsed corner of the matching state */
  lemma MorphShapeEnds(x: real, y: real, g: real, fromSquare: bool, fromSkip: Corner,
                       toSquare: bool, toSkip: Corner, t: real)
    requires fromSquare != toSquare
    ensures var moving := if fromSquare then toSkip else fromSkip;
      forall i: Corner :: i != moving ==>
        MorphShapeOutline(x, y, g, fromSquare, fromSkip, toSquare, toSkip, t)[i] == Corners(x, y, g)[i]
    ensures MorphShapeOutline(x, y, g, fromSquare, fromSkip, toSquare, toSkip, 0.0) ==
      if fromSquare then Corners(x, y, g) else Corners(x, y, g)[fromSkip := Center(x, y, g)]
    ensures MorphShapeOutline(x, y, g, fromSquare, fromSkip, toSquare, toSkip, 1.0) ==
      if toSquare then Corners(x, y, g) else Corners(x, y, g)[toSkip := Center(x, y, g)]
  {
  }

  /** a cell drawn at eased progress 0 shows its current shape and at eased
      progress 1 its next shape, so the morph neither starts nor ends with a
      jump, and the first frame of the following transition (drawn at 0 from
      the promoted state) continues where this one ended */
  lemma CellOutlineEnds(x: real, y: real, g: real, currSquare: bool, currSkip: Corner,
                        nextSquare: bool, nextSkip: Corner)
    ensures Traces(CellOutline(x, y, g, currSquare, currSkip, nextSquare, nextSkip, 0.0),
                   StaticOutline(x, y, g, currSquare, currSkip))
    ensures Traces(CellOutline(x, y, g, currSquare, currSkip, nextSquare, nextSkip, 1.0),
                   StaticOutline(x, y, g, nextSquare, nextSkip))
  {
    if currSquare == nextSquare {
      if !currSquare && currSkip != nextSkip {
        MorphTriangleEnds(x, y, g, currSkip, nextSkip, 0.0);
        CollapsedCornerTracesTriangle(x, y, g, currSkip);
        CollapsedCornerTracesTriangle(x, y, g, nextSkip);
      }
    } else {
      MorphShapeEnds(x, y, g, currSquare, currSkip, nextSquare, nextSkip, 0.0);
      if currSquare {
        CollapsedCornerTracesTriangle(x, y, g, nextSkip);
      } else {
        CollapsedCornerTracesTriangle(x, y, g, currSkip);
      }
    }
  }

  /** the point lies in the cell's square */
  predicate InCell(p: Point, x: real, y: real, g: real) {
    x <= p.x <= x + g && y <= p.y <= y + g
  }

  lemma LerpPointInCell(a: Point, b: Point, x: real, y: real, g: real, t: real)
    requires InCell(a, x, y, g) && InCell(b, x, y, g) && 0.0 <= t <= 1.0
    ensures InCell(LerpPoint(a, b, t), x, y, g)
  {
    LerpBetween(a.x, b.x, t);
    LerpBetween(a.y, b.y, t);
  }

  /** for eased progress in [0, 1] no vertex a cell emits leaves the cell, so
      neighbouring tiles never overlap */
  lemma CellOutlineInCell(x: real, y: real, g: real, currSquare: bool, currSkip: Corner,
                          nextSquare: bool, nextSkip: Corner, t: real)
    requires g >= 0.0 && 0.0 <= t <= 1.0
    ensures forall p <- CellOutline(x, y, g, currSquare, currSkip, nextSquare, nextSkip, t) :: InCell(p, x, y, g)
  {
    var c := Corners(x, y, g);
    var m := Center(x, y, g);
    forall i: Corner ensures InCell(c[i], x, y, g) && InCell(m, x, y, g) {}
    forall i: Corner
      ensures InCell(MorphTriangleVertex(x, y, g, currSkip, nextSkip, t, i), x, y, g)
      ensures InCell(MorphShapeVertex(x, y, g, currSquare, currSkip, nextSquare, nextSkip, t, i), x, y, g)
    {
      LerpPointInCell(c[i], m, x, y, g, t);
      LerpPointInCell(m, c[i], x, y, g, t);
    }
  }
}
