/**
 * The plotting callback of assignment2/script.js without its drawing calls:
 * it pads the domain, maps every record to a pixel position and a shape,
 * and lays out the tick values of both axes.
 */
module Scatter {
  import opened Wrappers
  import opened Csv
  import opened Domain
  import opened Axis

  /** Space kept free left of the plot for the y-axis labels. */
  const LeftMargin: real := 20.0
  /** Space kept free under the plot for the x-axis labels. */
  const BottomMargin: real := 20.0

  datatype Shape = Square | Circle | Triangle

  /** A point as drawn: its pixel position on the canvas and its shape. */
  datatype Mark = Mark(x: real, y: real, shape: Shape)

  /** The padded domain of both axes. */
  datatype Bounds = Bounds(minX: real, maxX: real, minY: real, maxY: real)
  {
    predicate Proper() { minX < maxX && minY < maxY }

    predicate Contains(p: Point) { minX <= p.x <= maxX && minY <= p.y <= maxY }
  }

  /** Everything the callback computes before it draws. */
  datatype Frame = Frame(
    bounds: Bounds, xStep: int, yStep: int,
    marks: seq<Mark>, xTicks: seq<int>, yTicks: seq<int>)

  /** `uniqueCategories[i]`, which is `undefined` past the end. */
  function CategoryAt(cats: seq<string>, i: nat): Option<string>
  {
    if i < |cats| then Some(cats[i]) else None
  }

  /**
   * The shape a point is drawn with: square for the first category, circle
   * for the second, triangle otherwise. The comparison is strict equality
   * with a possibly `undefined` list entry.
   */
  function ShapeOf(category: Option<string>, cats: seq<string>): Shape
  {
    if category == CategoryAt(cats, 0) then Square
    else if category == CategoryAt(cats, 1) then Circle
    else Triangle
  }

  /**
   * For a category that is present and a duplicate-free category list, the
   * first category is a square, the second a circle and every other
   * category a triangle.
   */
  lemma ShapeOfPresent(c: string, cats: seq<string>)
    requires NoDup(cats)
    ensures ShapeOf(Some(c), cats) == Square <==> |cats| >= 1 && c == cats[0]
    ensures ShapeOf(Some(c), cats) == Circle <==> |cats| >= 2 && c == cats[1]
    ensures ShapeOf(Some(c), cats) == Triangle <==> c !in cats[..if |cats| < 2 then |cats| else 2]
  {
    var first := if |cats| < 2 then |cats| else 2;
    assert forall x :: x in cats[..first] <==> (first >= 1 && x == cats[0]) || (first == 2 && x == cats[1]);
  }

  /**
   * A point without a category equals an `undefined` list entry: it is a
   * square when there is no category at all, a circle when there is
   * exactly one, and a triangle otherwise.
   */
  lemma ShapeOfAbsent(cats: seq<string>)
    ensures ShapeOf(None, cats) == (if |cats| == 0 then Square else if |cats| == 1 then Circle else Triangle)
  {
  }

  /** The canvas position and shape of one record. The y axis points down on a canvas. */
  function PlacePoint(p: Point, b: Bounds, w: real, h: real, cats: seq<string>): Mark
    requires b.Proper()
  {
    Mark(LeftMargin + Normalize(p.x, b.minX, b.maxX, w),
         h - Normalize(p.y, b.minY, b.maxY, h),
         ShapeOf(p.category, cats))
  }

  /** A record inside the domain lands inside the plot area. */
  lemma PlacePointInArea(p: Point, b: Bounds, w: real, h: real, cats: seq<string>)
    requires b.Proper() && b.Contains(p) && 0.0 <= w && 0.0 <= h
    ensures var m := PlacePoint(p, b, w, h, cats);
      LeftMargin <= m.x <= LeftMargin + w && 0.0 <= m.y <= h
  {
    NormalizeWithin(p.x, b.minX, b.maxX, w);
    NormalizeWithin(p.y, b.minY, b.maxY, h);
  }

  /**
   * The mapping keeps the x order and reverses the y order: a larger `y`
   * is drawn higher up, that is at a smaller canvas y.
   */
  lemma PlacePointOrder(p: Point, q: Point, b: Bounds, w: real, h: real, cats: seq<string>)
    requires b.Proper() && 0.0 < w && 0.0 < h
    ensures p.x < q.x ==> PlacePoint(p, b, w, h, cats).x < PlacePoint(q, b, w, h, cats).x
    ensures p.y < q.y ==> PlacePoint(q, b, w, h, cats).y < PlacePoint(p, b, w, h, cats).y
  {
    if p.x < q.x { NormalizeStrict(p.x, q.x, b.minX, b.maxX, w); }
    if p.y < q.y { NormalizeStrict(p.y, q.y, b.minY, b.maxY, h); }
  }

  /** The data coordinates can be read back off the canvas position. */
  lemma PlacePointRecovers(p: Point, b: Bounds, w: real, h: real, cats: seq<string>)
    requires b.Proper() && w != 0.0 && h != 0.0
    ensures var m := PlacePoint(p, b, w, h, cats);
      Denormalize(m.x - LeftMargin, b.minX, b.maxX, w) == p.x &&
      Denormalize(h - m.y, b.minY, b.maxY, h) == p.y
  {
    NormalizeRoundTrip(p.x, b.minX, b.maxX, w);
    NormalizeRoundTrip(p.y, b.minY, b.maxY, h);
  }

  /** The `forEach` over the records: one mark per record, in record order. */
  method PlacePoints(points: seq<Point>, b: Bounds, w: real, h: real, cats: seq<string>)
    returns (marks: seq<Mark>)
    requires b.Proper()
    ensures |marks| == |points|
    ensures forall i :: 0 <= i < |points| ==> marks[i] == PlacePoint(points[i], b, w, h, cats)
  {
    marks := [];
    var index := 0;
    while index < |points|
      invariant 0 <= index <= |points|
      invariant |marks| == index
      invariant forall i :: 0 <= i < index ==> marks[i] == PlacePoint(points[i], b, w, h, cats)
    {
      var point := points[index];
      var x := LeftMargin + Normalize(point.x, b.minX, b.maxX, w);
      var y := h - Normalize(point.y, b.minY, b.maxY, h);
      var shape: Shape;
      if point.category == CategoryAt(cats, 0) {
        shape := Square;
      } else if point.category == CategoryAt(cats, 1) {
        shape := Circle;
      } else {
        shape := Triangle;
      }
      marks := marks + [Mark(x, y, shape)];
      index := index + 1;
    }
  }

  /**
   * The callback given what `loadCSV` resolved to and the canvas size. Each
   * domain is widened by one step at both ends, with the positive step of
   * `TickStep`; the records are placed in the widened domain, and the tick
   * values of each axis are the multiples of its step inside it.
   */
  method DrawScatter(s: Summary, canvasWidth: real, canvasHeight: real) returns (f: Frame)
    requires s.minX <= s.maxX && s.minY <= s.maxY
    ensures f.xStep == TickStep(s.minX, s.maxX) && f.yStep == TickStep(s.minY, s.maxY)
    ensures f.bounds == Bounds(s.minX - f.xStep as real, s.maxX + f.xStep as real,
                               s.minY - f.yStep as real, s.maxY + f.yStep as real)
    ensures f.bounds.Proper()
    ensures f.bounds.minX < s.minX && s.maxX < f.bounds.maxX
    ensures f.bounds.minY < s.minY && s.maxY < f.bounds.maxY
    ensures s.minX <= 0.0 ==> f.bounds.minX < 0.0
    ensures s.minY <= 0.0 ==> f.bounds.minY < 0.0
    ensures |f.marks| == |s.points|
    ensures forall i :: 0 <= i < |s.points| ==>
      f.marks[i] == PlacePoint(s.points[i], f.bounds, canvasWidth - LeftMargin, canvasHeight - BottomMargin, s.categories)
    ensures forall v :: v in f.xTicks <==> IsTick(f.xStep, f.bounds.minX, f.bounds.maxX, v)
    ensures forall v :: v in f.yTicks <==> IsTick(f.yStep, f.bounds.minY, f.bounds.maxY, v)
  {
    var maxX, minX, maxY, minY := s.maxX, s.minX, s.maxY, s.minY;
    var xAxisStep := TickStep(minX, maxX);
    var yAxisStep := TickStep(minY, maxY);

    maxX := maxX + xAxisStep as real;
    minX := minX - xAxisStep as real;
    maxY := maxY + yAxisStep as real;
    minY := minY - yAxisStep as real;

    var w := canvasWidth - LeftMargin;
    var h := canvasHeight - BottomMargin;
    var bounds := Bounds(minX, maxX, minY, maxY);
    var marks := PlacePoints(s.points, bounds, w, h, s.categories);

    var xTicks, _ := AxisTicks(xAxisStep, minX, maxX);
    var yTicks, _ := AxisTicks(yAxisStep, minY, maxY);
    f := Frame(bounds, xAxisStep, yAxisStep, marks, xTicks, yTicks);
  }

  /**
   * `loadCSV` followed by the callback: nothing is drawn when no row
   * survives parsing; otherwise every kept record gets a mark, and on a
   * canvas larger than the margins every mark lies in the plot area.
   */
  method Plot(text: string, parse: string -> Option<real>, canvasWidth: real, canvasHeight: real)
    returns (f: Option<Frame>)
    ensures f.None? <==> ParseRows(Rows(text), parse) == []
    ensures f.Some? ==> |f.value.marks| == |ParseRows(Rows(text), parse)|
    ensures f.Some? && LeftMargin <= canvasWidth && BottomMargin <= canvasHeight ==>
      forall i :: 0 <= i < |f.value.marks| ==>
        LeftMargin <= f.value.marks[i].x <= canvasWidth &&
        0.0 <= f.value.marks[i].y <= canvasHeight - BottomMargin
    ensures f.Some? ==> forall i :: 0 <= i < |f.value.marks| ==>
      f.value.marks[i].shape == ShapeOf(ParseRows(Rows(text), parse)[i].category,
                                        UniqueCategories(ParseRows(Rows(text), parse)))
  {
    var loaded := LoadCsv(text, parse);
    if loaded.None? {
      return None;
    }
    var s := loaded.value;
    var frame := DrawScatter(s, canvasWidth, canvasHeight);
    var w, h := canvasWidth - LeftMargin, canvasHeight - BottomMargin;
    if 0.0 <= w && 0.0 <= h {
      forall i | 0 <= i < |s.points|
        ensures LeftMargin <= frame.marks[i].x <= canvasWidth && 0.0 <= frame.marks[i].y <= h
      {
        PlacePointInArea(s.points[i], frame.bounds, w, h, s.categories);
      }
    }
    f := Some(frame);
  }
}
