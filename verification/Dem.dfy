/**
 Digital elevation models as lines of x, y, h, over exact reals: export writes the cells that are not NULL, import
 finds the cell of each line again.
 */
module Dem {
  import opened Prelude
  import opened Boxes

  datatype Row = Row(x: real, y: real, h: real)

  /** One axis of the geographic box, as given in the options. */
  datatype Axis = Axis(flip: bool, start: real, end: real, res: real) {
    /** What `decodeOptions` insists on. */
    predicate Ok() { res != 0.0 && start < end }
    /** The coordinate written for a cell position. */
    function World(i: int): real { if flip then end - Scaled(i, res) else start + Scaled(i, res) }
    /** The cell position read for a coordinate. */
    function Cell(v: real): int
      requires res != 0.0
    {
      Trunc((if flip then end - v else v - start) / res + CORRECTION)
    }
    predicate Has(v: real) { start <= v <= end }
  }

  /** The distance of i cells. */
  function Scaled(i: int, res: real): real { i as real * res }

  datatype Geo = Geo(x: Axis, y: Axis) {
    predicate Ok() { x.Ok() && y.Ok() }
    predicate Has(r: Row) { x.Has(r.x) && y.Has(r.y) }
    function Point(r: Row): Boxes.Point
      requires Ok()
    {
      [x.Cell(r.x), y.Cell(r.y)]
    }
  }

  const CORRECTION := 0.000001
  /** NULL in the array, zero in the text, and how the array represents zero (`FLT_MIN`, two to the power -126). */
  const NULL_DB := 0.0
  const ZERO_DEM := 0.0
  const ZERO_DB := 1.0 / 85070591730234615865843651857942052864.0

  /** The largest double. */
  const DBL_MAX := 179769313486231570814527423731704356798070567525844996598917476803157260780028538760589558632766878171540458953514382464234321326889464182768467546703537516986049910576551282076245490090389328944075868508455133942304583236903222948165808559332123348274797826204144723168738177180919299881250404026184124858368.0

  /** A cast to an integer truncates toward zero. */
  function Trunc(v: real): int { if v >= 0.0 then v.Floor else -((-v).Floor) }

  lemma TruncMono(v: real, w: real)
    requires v <= w
    ensures Trunc(v) <= Trunc(w)
  {
  }

  lemma DivMono(a: real, b: real, c: real)
    requires c != 0.0
    ensures c > 0.0 && a <= b ==> a / c <= b / c
    ensures c < 0.0 && a <= b ==> b / c <= a / c
  {
    var p, q := a / c, b / c;
    assert p * c == a && q * c == b;
    if c > 0.0 && p > q { assert (p - q) * c > 0.0; }
    if c < 0.0 && p < q { assert (q - p) * c < 0.0; }
  }

  /** Coordinates keep their order or reverse it, by the sign of the resolution and the flip. */
  lemma CellOrder(ax: Axis, v: real, w: real)
    requires ax.res != 0.0 && v <= w
    ensures (ax.res > 0.0) != ax.flip ==> ax.Cell(v) <= ax.Cell(w)
    ensures (ax.res > 0.0) == ax.flip ==> ax.Cell(w) <= ax.Cell(v)
  {
    DivMono(v - ax.start, w - ax.start, ax.res);
    DivMono(ax.end - w, ax.end - v, ax.res);
    var f, g := (if ax.flip then ax.end - v else v - ax.start) / ax.res, (if ax.flip then ax.end - w else w - ax.start) / ax.res;
    if f <= g { TruncMono(f + CORRECTION, g + CORRECTION); } else { TruncMono(g + CORRECTION, f + CORRECTION); }
  }

  /** A coordinate belongs to the position it is less than 0.999999 behind, or no more than 0.000001 in front of. */
  lemma CellRange(ax: Axis, v: real, i: int)
    requires ax.res != 0.0
    ensures var q := (if ax.flip then ax.end - v else v - ax.start) / ax.res;
            ax.Cell(v) == i <==>
            if i > 0 then i as real - 0.000001 <= q < i as real + 0.999999
            else if i == 0 then -1.000001 < q < 0.999999
            else i as real - 1.000001 < q <= i as real - 0.000001
  {
  }

  /** A position on the non-negative side is found again from its coordinate. */
  lemma CellOfWorld(ax: Axis, i: nat)
    requires ax.res != 0.0
    ensures ax.Cell(ax.World(i)) == i
  {
    var d := i as real * ax.res;
    assert d / ax.res == i as real;
    assert (if ax.flip then ax.end - ax.World(i) else ax.World(i) - ax.start) == d;
  }

  // ---------- import ----------

  /** The rows of the lines that can be parsed; zero becomes `ZERO_DB`, since 0 means NULL in the array. */
  function Parsed(lines: seq<Option<Row>>): seq<Row> {
    if lines == [] then []
    else
      var rest := Parsed(lines[..|lines| - 1]);
      match lines[|lines| - 1]
      case None => rest
      case Some(r) => rest + [if r.h == ZERO_DEM then r.(h := ZERO_DB) else r]
  }

  /** The bounds of the rows' coordinates, each reached by some row. */
  datatype Extremes = Extremes(minX: real, maxX: real, minY: real, maxY: real)

  predicate Bounds(e: Extremes, r: Row) { e.minX <= r.x <= e.maxX && e.minY <= r.y <= e.maxY }

  ghost predicate IsExtremes(e: Extremes, rows: seq<Row>) {
    && (forall k :: 0 <= k < |rows| ==> Bounds(e, rows[k]))
    && (exists k :: 0 <= k < |rows| && rows[k].x == e.minX) && (exists k :: 0 <= k < |rows| && rows[k].x == e.maxX)
    && (exists k :: 0 <= k < |rows| && rows[k].y == e.minY) && (exists k :: 0 <= k < |rows| && rows[k].y == e.maxY)
  }

  predicate AllInside(geo: Geo, rows: seq<Row>) { forall k :: 0 <= k < |rows| ==> geo.Has(rows[k]) }

  /** The interval `convertFrom` computes for an axis; it is none if its bounds are in the wrong order. */
  function AxisInterval(ax: Axis, min: real, max: real): Interval
    requires ax.res != 0.0
  {
    if ax.flip then Interval(ax.Cell(max), ax.Cell(min)) else Interval(ax.Cell(min), ax.Cell(max))
  }

  lemma AxisHolds(ax: Axis, min: real, max: real, v: real)
    requires ax.res != 0.0 && min <= v <= max
    ensures var i := AxisInterval(ax, min, max);
            && (i.lo <= i.hi ==> i.Has(ax.Cell(v)))
            && (ax.res > 0.0 ==> i.lo <= i.hi) && (ax.res < 0.0 ==> i.hi <= ax.Cell(v) <= i.lo)
  {
    hide Axis.Cell;
    CellOrder(ax, min, v);
    CellOrder(ax, v, max);
  }

  /** With a negative resolution the bounds come out reversed, unless all rows fall into one position. */
  predicate OneCell(ax: Axis, vs: seq<real>)
    requires ax.res != 0.0
  {
    forall i, j :: 0 <= i < j < |vs| ==> ax.Cell(vs[i]) == ax.Cell(vs[j])
  }

  function Xs(rows: seq<Row>): (r: seq<real>)
    ensures |r| == |rows|
  {
    seq(|rows|, i requires 0 <= i < |rows| => rows[i].x)
  }

  function Ys(rows: seq<Row>): (r: seq<real>)
    ensures |r| == |rows|
  {
    seq(|rows|, i requires 0 <= i < |rows| => rows[i].y)
  }

  lemma AxisExists(ax: Axis, vs: seq<real>, i: nat, j: nat)
    requires ax.res != 0.0 && i < |vs| && j < |vs| && forall k :: 0 <= k < |vs| ==> vs[i] <= vs[k] <= vs[j]
    ensures var s := AxisInterval(ax, vs[i], vs[j]); s.lo <= s.hi <==> ax.res > 0.0 || OneCell(ax, vs)
  {
    hide Axis.Cell;
    var s := AxisInterval(ax, vs[i], vs[j]);
    forall k | 0 <= k < |vs| ensures ax.res < 0.0 ==> s.hi <= ax.Cell(vs[k]) <= s.lo {
      AxisHolds(ax, vs[i], vs[j], vs[k]);
    }
    AxisHolds(ax, vs[i], vs[j], vs[i]);
    if ax.res < 0.0 && OneCell(ax, vs) {
      assert ax.Cell(vs[i]) == ax.Cell(vs[j]);
    }
  }

  /** The height of the last of the first n rows at a point; NULL without one. */
  function HeightAt(geo: Geo, rows: seq<Row>, n: nat, p: Point): real
    requires geo.Ok() && n <= |rows|
  {
    if n == 0 then NULL_DB else if geo.Point(rows[n - 1]) == p then rows[n - 1].h else HeightAt(geo, rows, n - 1, p)
  }

  /** Every row's point is in the box, and no smaller box has them all. */
  ghost predicate Tight(geo: Geo, rows: seq<Row>, b: Box)
    requires geo.Ok()
  {
    && |b| == 2 && (forall k :: 0 <= k < |rows| ==> Covers(b, geo.Point(rows[k])))
    && (forall c: Box :: |c| == 2 && (forall k :: 0 <= k < |rows| ==> Covers(c, geo.Point(rows[k]))) ==> Inside(b, c))
  }

  predicate CellIs(geo: Geo, rows: seq<Row>, n: nat, b: Box, cells: seq<real>, p: Point)
    requires geo.Ok() && n <= |rows| && Valid(b) && Covers(b, p) && |cells| == CellCount(b)
  {
    OffsetBound(b, p);
    cells[Offset(b, p)] == HeightAt(geo, rows, n, p)
  }

  ghost predicate AllCellsAre(geo: Geo, rows: seq<Row>, n: nat, b: Box, cells: seq<real>)
    requires geo.Ok() && n <= |rows| && Valid(b) && |cells| == CellCount(b)
  {
    forall p :: Covers(b, p) ==> CellIs(geo, rows, n, b, cells, p)
  }

  /** The computed domain is the least box with all rows' points, whenever it is a domain at all. */
  lemma DomainTight(geo: Geo, rows: seq<Row>, e: Extremes)
    requires geo.Ok() && IsExtremes(e, rows)
    ensures var b := [AxisInterval(geo.x, e.minX, e.maxX), AxisInterval(geo.y, e.minY, e.maxY)];
            Valid(b) ==> Tight(geo, rows, b)
  {
    hide Axis.Cell;
    var b := [AxisInterval(geo.x, e.minX, e.maxX), AxisInterval(geo.y, e.minY, e.maxY)];
    if Valid(b) {
      forall k | 0 <= k < |rows| ensures Covers(b, geo.Point(rows[k])) {
        assert Bounds(e, rows[k]) && b[0].lo <= b[0].hi && b[1].lo <= b[1].hi;
        AxisHolds(geo.x, e.minX, e.maxX, rows[k].x);
        AxisHolds(geo.y, e.minY, e.maxY, rows[k].y);
      }
      forall c: Box | |c| == 2 && forall k :: 0 <= k < |rows| ==> Covers(c, geo.Point(rows[k])) ensures Inside(b, c) {
        Reached(geo, rows, e, c);
      }
    }
  }

  lemma Reached(geo: Geo, rows: seq<Row>, e: Extremes, c: Box)
    requires geo.Ok() && IsExtremes(e, rows) && |c| == 2 && forall k :: 0 <= k < |rows| ==> Covers(c, geo.Point(rows[k]))
    ensures Inside([AxisInterval(geo.x, e.minX, e.maxX), AxisInterval(geo.y, e.minY, e.maxY)], c)
  {
    hide Axis.Cell;
    var x0 :| 0 <= x0 < |rows| && rows[x0].x == e.minX;
    var x1 :| 0 <= x1 < |rows| && rows[x1].x == e.maxX;
    var y0 :| 0 <= y0 < |rows| && rows[y0].y == e.minY;
    var y1 :| 0 <= y1 < |rows| && rows[y1].y == e.maxY;
    assert Covers(c, geo.Point(rows[x0])) && Covers(c, geo.Point(rows[x1]));
    assert Covers(c, geo.Point(rows[y0])) && Covers(c, geo.Point(rows[y1]));
    assert c[0].Has(geo.x.Cell(e.minX)) && c[0].Has(geo.x.Cell(e.maxX));
    assert c[1].Has(geo.y.Cell(e.minY)) && c[1].Has(geo.y.Cell(e.maxY));
  }

  // ---------- export ----------

  /** Row k of the exported rows: the cells of the box with x running fastest. */
  function CellRow(geo: Geo, b: Box, src: seq<real>, k: nat): Row
    requires |b| == 2 && Valid(b) && |src| == CellCount(b) && k < RowCount(b)
  {
    CellPosition(b, k);
    var p := Position(b, k);
    OffsetBound(b, p);
    Row(geo.x.World(p[0]), geo.y.World(p[1]), src[Offset(b, p)])
  }

  function RowCount(b: Box): nat
    requires |b| == 2 && Valid(b)
  {
    MulAtLeast(b[1].Extent(), 1, b[0].Extent());
    b[1].Extent() * b[0].Extent()
  }

  function Position(b: Box, k: nat): Point
    requires |b| == 2 && Valid(b)
  {
    [b[0].lo + k % b[0].Extent(), b[1].lo + k / b[0].Extent()]
  }

  lemma CellPosition(b: Box, k: nat)
    requires |b| == 2 && Valid(b) && k < RowCount(b)
    ensures Covers(b, Position(b, k))
  {
    DivBounds(k, b[0].Extent());
    QuotientBound(k, b[1].Extent(), b[0].Extent());
  }

  /** Every cell of the box has a row. */
  lemma PositionOf(b: Box, p: Point)
    requires |b| == 2 && Valid(b) && Covers(b, p)
    ensures var k := (p[1] - b[1].lo) * b[0].Extent() + (p[0] - b[0].lo);
            0 <= k < RowCount(b) && Position(b, k) == p
  {
    assert b[0].Has(p[0]) && b[1].Has(p[1]);
    PairBound(p[1] - b[1].lo, p[0] - b[0].lo, b[1].Extent(), b[0].Extent());
    MulMono(0, p[1] - b[1].lo, b[0].Extent());
    DivUnique((p[1] - b[1].lo) * b[0].Extent() + (p[0] - b[0].lo), b[0].Extent(), p[1] - b[1].lo, p[0] - b[0].lo);
  }

  function CellRows(geo: Geo, b: Box, src: seq<real>): (r: seq<Row>)
    requires |b| == 2 && Valid(b) && |src| == CellCount(b)
    ensures |r| == RowCount(b)
  {
    seq(RowCount(b), k requires 0 <= k < RowCount(b) => CellRow(geo, b, src, k))
  }

  /** The limits of an exported axis, and the check that they are within the options. */
  predicate AxisFits(ax: Axis, i: Interval) {
    var lo, hi := ax.World(i.lo), ax.World(i.hi);
    if ax.flip then ax.start <= hi && lo <= ax.end else ax.start <= lo && hi <= ax.end
  }

  predicate Exportable(geo: Geo, b: Box)
    requires |b| == 2
  {
    AxisFits(geo.x, b[0]) && AxisFits(geo.y, b[1])
  }

  /** The lines of the rows that are not NULL. */
  function Written(rows: seq<Row>): seq<Option<Row>> {
    if rows == [] then []
    else
      var rest, r := Written(rows[..|rows| - 1]), rows[|rows| - 1];
      if r.h != NULL_DB then rest + [Some(if r.h == ZERO_DB then r.(h := ZERO_DEM) else r)] else rest
  }

  function NonNull(rows: seq<Row>): seq<Row> {
    if rows == [] then []
    else
      var rest, r := NonNull(rows[..|rows| - 1]), rows[|rows| - 1];
      if r.h != NULL_DB then rest + [r] else rest
  }

  // ---------- export, then import ----------

  /** Reading the written lines gives the rows that are not NULL, `ZERO_DB` included. */
  lemma {:induction false} ParsedWritten(rows: seq<Row>)
    ensures Parsed(Written(rows)) == NonNull(rows)
  {
    if rows != [] {
      var d := |rows| - 1;
      ParsedWritten(rows[..d]);
      if rows[d].h != NULL_DB {
        assert Written(rows)[..|Written(rows)| - 1] == Written(rows[..d]);
      }
    }
  }

  lemma {:induction false} NonNullFrom(rows: seq<Row>, j: nat)
    requires j < |NonNull(rows)|
    ensures exists k :: 0 <= k < |rows| && rows[k] == NonNull(rows)[j] && rows[k].h != NULL_DB
  {
    var d := |rows| - 1;
    var rest := rows[..d];
    if j < |NonNull(rest)| {
      NonNullFrom(rest, j);
      var k :| 0 <= k < |rest| && rest[k] == NonNull(rest)[j] && rest[k].h != NULL_DB;
      assert rows[k] == rest[k];
    }
  }

  lemma {:induction false} NonNullHas(rows: seq<Row>, k: nat)
    requires k < |rows| && rows[k].h != NULL_DB
    ensures exists j :: 0 <= j < |NonNull(rows)| && NonNull(rows)[j] == rows[k]
  {
    var d := |rows| - 1;
    var rest := rows[..d];
    if k < d {
      NonNullHas(rest, k);
      var j :| 0 <= j < |NonNull(rest)| && NonNull(rest)[j] == rest[k];
      assert NonNull(rows)[j] == rest[k];
    } else {
      assert NonNull(rows)[|NonNull(rows)| - 1] == rows[k];
    }
  }

  /** Positions that pass the export check are not negative, and their coordinates are within the limits. */
  lemma AxisPositions(ax: Axis, i: Interval, x: int)
    requires ax.Ok() && ax.res > 0.0 && AxisFits(ax, i) && i.Has(x)
    ensures x >= 0 && ax.Has(ax.World(x))
  {
    hide Scaled;
    ScaleMono(i.lo, x, ax.res);
    ScaleMono(x, i.hi, ax.res);
    if i.lo < 0 { ScaleMono(i.lo, -1, ax.res); }
  }

  lemma ScaleMono(a: int, b: int, c: real)
    requires a <= b && c > 0.0
    ensures Scaled(a, c) <= Scaled(b, c) && Scaled(-1, c) == -c
  {
    var d := (b - a) as real;
    assert d * c >= 0.0;
    assert b as real * c == a as real * c + d * c;
  }

  lemma {:induction false} HeightAgreed(geo: Geo, rows: seq<Row>, n: nat, p: Point, h: real)
    requires geo.Ok() && n <= |rows|
    requires forall k :: 0 <= k < n && geo.Point(rows[k]) == p ==> rows[k].h == h
    requires h == NULL_DB || exists k :: 0 <= k < n && geo.Point(rows[k]) == p
    ensures HeightAt(geo, rows, n, p) == h
  {
    if n > 0 && geo.Point(rows[n - 1]) != p { HeightAgreed(geo, rows, n - 1, p, h); }
  }

  /** Where an exported row is found again: at the cell it was made from. */
  lemma RowAtCell(geo: Geo, b: Box, src: seq<real>, k: nat)
    requires geo.Ok() && geo.x.res > 0.0 && geo.y.res > 0.0
    requires |b| == 2 && Valid(b) && |src| == CellCount(b) && Exportable(geo, b) && k < RowCount(b)
    ensures Covers(b, Position(b, k)) && geo.Point(CellRow(geo, b, src, k)) == Position(b, k)
    ensures geo.Has(CellRow(geo, b, src, k))
  {
    hide Offset, CellCount, AxisFits, Axis.Cell, Axis.World, RowCount;
    CellPosition(b, k);
    var p := Position(b, k);
    assert b[0].Has(p[0]) && b[1].Has(p[1]);
    AxisPositions(geo.x, b[0], p[0]);
    AxisPositions(geo.y, b[1], p[1]);
    CellOfWorld(geo.x, p[0]);
    CellOfWorld(geo.y, p[1]);
  }

  /** The points of an array that are not NULL. */
  predicate HasValue(b: Box, src: seq<real>, p: Point)
    requires Valid(b) && |src| == CellCount(b)
  {
    Covers(b, p) && (OffsetBound(b, p); src[Offset(b, p)] != NULL_DB)
  }

  /** What import makes of an exported array: the rows to look at, and the height at each point. */
  lemma ExportedHeights(geo: Geo, b: Box, src: seq<real>, p: Point)
    requires geo.Ok() && geo.x.res > 0.0 && geo.y.res > 0.0
    requires |b| == 2 && Valid(b) && |src| == CellCount(b) && Exportable(geo, b) && Covers(b, p)
    ensures var rows := Parsed(Written(CellRows(geo, b, src)));
            && 0 <= Offset(b, p) < |src| && HeightAt(geo, rows, |rows|, p) == src[Offset(b, p)]
            && (HasValue(b, src, p) ==> exists j :: 0 <= j < |rows| && geo.Point(rows[j]) == p)
  {
    hide Offset, CellCount, RowCount, Exportable, Axis.Cell, Axis.World, Written, Parsed, NonNull, Position;
    var all := CellRows(geo, b, src);
    ParsedWritten(all);
    var rows := NonNull(all);
    OffsetBound(b, p);
    var h := src[Offset(b, p)];
    forall j | 0 <= j < |rows| && geo.Point(rows[j]) == p ensures rows[j].h == h {
      NonNullFrom(all, j);
      var k :| 0 <= k < |all| && all[k] == rows[j] && all[k].h != NULL_DB;
      RowAtCell(geo, b, src, k);
    }
    if h != NULL_DB {
      PositionOf(b, p);
      var k := (p[1] - b[1].lo) * b[0].Extent() + (p[0] - b[0].lo);
      RowAtCell(geo, b, src, k);
      NonNullHas(all, k);
      var j :| 0 <= j < |rows| && rows[j] == all[k];
      assert geo.Point(rows[j]) == p;
    }
    HeightAgreed(geo, rows, |rows|, p, h);
  }

  /** Each imported row stands at a point that is not NULL. */
  lemma ExportedRow(geo: Geo, b: Box, src: seq<real>, j: nat)
    requires geo.Ok() && geo.x.res > 0.0 && geo.y.res > 0.0
    requires |b| == 2 && Valid(b) && |src| == CellCount(b) && Exportable(geo, b)
    requires j < |Parsed(Written(CellRows(geo, b, src)))|
    ensures var r := Parsed(Written(CellRows(geo, b, src)))[j]; HasValue(b, src, geo.Point(r)) && geo.Has(r)
  {
    hide Offset, CellCount, RowCount, Exportable, Axis.Cell, Axis.World, Written, Parsed, NonNull, Position;
    var all := CellRows(geo, b, src);
    ParsedWritten(all);
    NonNullFrom(all, j);
    var k :| 0 <= k < |all| && all[k] == NonNull(all)[j] && all[k].h != NULL_DB;
    RowAtCell(geo, b, src, k);
  }

  /** The box holds every point that is not NULL. */
  ghost predicate HoldsValues(b: Box, src: seq<real>, c: Box)
    requires Valid(b) && |src| == CellCount(b)
  {
    forall p :: HasValue(b, src, p) ==> Covers(c, p)
  }

  lemma HoldsRows(geo: Geo, b: Box, src: seq<real>, c: Box)
    requires geo.Ok() && geo.x.res > 0.0 && geo.y.res > 0.0
    requires |b| == 2 && Valid(b) && |src| == CellCount(b) && Exportable(geo, b)
    ensures var rows := Parsed(Written(CellRows(geo, b, src)));
            (forall k :: 0 <= k < |rows| ==> Covers(c, geo.Point(rows[k]))) <==> HoldsValues(b, src, c)
  {
    hide Offset, CellCount, Exportable, Axis.Cell, Written, Parsed, CellRows, HasValue, Geo.Point, HoldsValues, Covers;
    var rows := Parsed(Written(CellRows(geo, b, src)));
    if HoldsValues(b, src, c) {
      forall k | 0 <= k < |rows| ensures Covers(c, geo.Point(rows[k])) {
        ExportedRow(geo, b, src, k);
        ValueHeld(b, src, c, geo.Point(rows[k]));
      }
    } else {
      var p := ValueOutside(b, src, c);
      ValueInside(b, src, p);
      ExportedHeights(geo, b, src, p);
      var k :| 0 <= k < |rows| && geo.Point(rows[k]) == p;
      assert !Covers(c, geo.Point(rows[k]));
    }
  }

  lemma ValueHeld(b: Box, src: seq<real>, c: Box, p: Point)
    requires Valid(b) && |src| == CellCount(b) && HoldsValues(b, src, c) && HasValue(b, src, p)
    ensures Covers(c, p)
  {
  }

  lemma ValueOutside(b: Box, src: seq<real>, c: Box) returns (p: Point)
    requires Valid(b) && |src| == CellCount(b) && !HoldsValues(b, src, c)
    ensures HasValue(b, src, p) && !Covers(c, p)
  {
    hide HasValue, Covers;
    p :| HasValue(b, src, p) && !Covers(c, p);
  }

  lemma ValueInside(b: Box, src: seq<real>, p: Point)
    requires Valid(b) && |src| == CellCount(b) && HasValue(b, src, p)
    ensures Covers(b, p)
  {
  }

  /** A whole box holds its values. */
  lemma SourceHolds(b: Box, src: seq<real>)
    requires Valid(b) && |src| == CellCount(b)
    ensures HoldsValues(b, src, b)
  {
  }

  /** Import accepts an exported array exactly when it is not all NULL. */
  lemma ImportAccepts(geo: Geo, b: Box, src: seq<real>)
    requires geo.Ok() && geo.x.res > 0.0 && geo.y.res > 0.0
    requires |b| == 2 && Valid(b) && |src| == CellCount(b) && Exportable(geo, b)
    ensures var rows := Parsed(Written(CellRows(geo, b, src)));
            AllInside(geo, rows) && (rows != [] <==> exists p :: HasValue(b, src, p))
  {
    hide Offset, CellCount, Exportable, Axis.Cell, Written, Parsed, CellRows, HasValue, Geo.Point, Geo.Has;
    var rows := Parsed(Written(CellRows(geo, b, src)));
    forall k | 0 <= k < |rows| ensures geo.Has(rows[k]) { ExportedRow(geo, b, src, k); }
    if rows != [] { ExportedRow(geo, b, src, 0); }
    if p :| HasValue(b, src, p) {
      ValueInside(b, src, p);
      ExportedHeights(geo, b, src, p);
    }
  }

  /** Export and import give the array back, cut to the least box that holds its values. */
  lemma RoundTrip(geo: Geo, b: Box, src: seq<real>, domain: Box, cells: seq<real>)
    requires geo.Ok() && geo.x.res > 0.0 && geo.y.res > 0.0
    requires |b| == 2 && Valid(b) && |src| == CellCount(b) && Exportable(geo, b)
    requires Valid(domain) && |cells| == CellCount(domain)
    requires var rows := Parsed(Written(CellRows(geo, b, src)));
             Tight(geo, rows, domain) && AllCellsAre(geo, rows, |rows|, domain, cells)
    ensures HoldsValues(b, src, domain) && Inside(domain, b)
    ensures forall c: Box :: |c| == 2 && HoldsValues(b, src, c) ==> Inside(domain, c)
    ensures forall p :: Covers(domain, p) ==> Covers(b, p) && SameCell(b, src, domain, cells, p)
  {
    hide Offset, CellCount, Exportable, Axis.Cell, Written, Parsed, CellRows, HasValue, Geo.Point, Covers, SameCell, CellIs, HoldsValues;
    var rows := Parsed(Written(CellRows(geo, b, src)));
    HoldsRows(geo, b, src, domain);
    forall c: Box | |c| == 2 && HoldsValues(b, src, c) ensures Inside(domain, c) {
      HoldsRows(geo, b, src, c);
    }
    SourceHolds(b, src);
    forall p | Covers(domain, p) ensures Covers(b, p) && SameCell(b, src, domain, cells, p) {
      InsideCovers(domain, b, p);
      assert CellIs(geo, rows, |rows|, domain, cells, p);
      CellRestored(geo, b, src, domain, cells, rows, p);
    }
  }

  predicate SameCell(b: Box, src: seq<real>, domain: Box, cells: seq<real>, p: Point)
    requires Valid(b) && Covers(b, p) && |src| == CellCount(b) && Valid(domain) && Covers(domain, p) && |cells| == CellCount(domain)
  {
    OffsetBound(b, p);
    OffsetBound(domain, p);
    cells[Offset(domain, p)] == src[Offset(b, p)]
  }

  lemma CellRestored(geo: Geo, b: Box, src: seq<real>, domain: Box, cells: seq<real>, rows: seq<Row>, p: Point)
    requires geo.Ok() && geo.x.res > 0.0 && geo.y.res > 0.0
    requires |b| == 2 && Valid(b) && |src| == CellCount(b) && Exportable(geo, b)
    requires Valid(domain) && |cells| == CellCount(domain) && Covers(domain, p) && Covers(b, p)
    requires rows == Parsed(Written(CellRows(geo, b, src))) && CellIs(geo, rows, |rows|, domain, cells, p)
    ensures SameCell(b, src, domain, cells, p)
  {
    hide Offset, CellCount, Exportable, Axis.Cell, Written, Parsed, CellRows, HasValue, Geo.Point;
    ExportedHeights(geo, b, src, p);
  }

  // ---------- the converter ----------

  predicate IsDouble(r: Row) { -DBL_MAX <= r.x <= DBL_MAX && -DBL_MAX <= r.y <= DBL_MAX }

  function Wider(e: Extremes, r: Row): Extremes {
    Extremes(if r.x < e.minX then r.x else e.minX, if r.x > e.maxX then r.x else e.maxX,
             if r.y < e.minY then r.y else e.minY, if r.y > e.maxY then r.y else e.maxY)
  }

  const NO_ROWS := Extremes(DBL_MAX, -DBL_MAX, DBL_MAX, -DBL_MAX)

  lemma WiderExtremes(e: Extremes, rows: seq<Row>, r: Row)
    requires if rows == [] then e == NO_ROWS && IsDouble(r) else IsExtremes(e, rows)
    ensures IsExtremes(Wider(e, r), rows + [r])
  {
    var e', rows' := Wider(e, r), rows + [r];
    assert rows'[|rows|] == r;
    forall k | 0 <= k < |rows'| ensures Bounds(e', rows'[k]) {
      if k < |rows| { assert Bounds(e, rows[k]); }
    }
    if rows != [] {
      var x0 :| 0 <= x0 < |rows| && rows[x0].x == e.minX;
      var x1 :| 0 <= x1 < |rows| && rows[x1].x == e.maxX;
      var y0 :| 0 <= y0 < |rows| && rows[y0].y == e.minY;
      var y1 :| 0 <= y1 < |rows| && rows[y1].y == e.maxY;
      assert rows'[x0] == rows[x0] && rows'[x1] == rows[x1] && rows'[y0] == rows[y0] && rows'[y1] == rows[y1];
    }
  }

  lemma DomainExists(geo: Geo, rows: seq<Row>, e: Extremes)
    requires geo.Ok() && IsExtremes(e, rows)
    ensures var b := [AxisInterval(geo.x, e.minX, e.maxX), AxisInterval(geo.y, e.minY, e.maxY)];
            Valid(b) <==> (geo.x.res > 0.0 || OneCell(geo.x, Xs(rows))) && (geo.y.res > 0.0 || OneCell(geo.y, Ys(rows)))
  {
    hide Axis.Cell, OneCell, AxisInterval;
    var x0 :| 0 <= x0 < |rows| && rows[x0].x == e.minX;
    var x1 :| 0 <= x1 < |rows| && rows[x1].x == e.maxX;
    var y0 :| 0 <= y0 < |rows| && rows[y0].y == e.minY;
    var y1 :| 0 <= y1 < |rows| && rows[y1].y == e.maxY;
    forall k | 0 <= k < |rows| ensures e.minX <= Xs(rows)[k] <= e.maxX && e.minY <= Ys(rows)[k] <= e.maxY {
      assert Bounds(e, rows[k]);
    }
    AxisExists(geo.x, Xs(rows), x0, x1);
    AxisExists(geo.y, Ys(rows), y0, y1);
    ValidPair(AxisInterval(geo.x, e.minX, e.maxX), AxisInterval(geo.y, e.minY, e.maxY));
  }

  lemma ValidPair(x: Interval, y: Interval)
    ensures Valid([x, y]) <==> x.lo <= x.hi && y.lo <= y.hi
  {
    var b := [x, y];
    assert b[0] == x && b[1] == y;
  }

  /** Extremes are inside the limits exactly when all rows are. */
  lemma LimitsDecide(geo: Geo, rows: seq<Row>, e: Extremes)
    requires IsExtremes(e, rows)
    ensures (geo.x.start <= e.minX && e.maxX <= geo.x.end && geo.y.start <= e.minY && e.maxY <= geo.y.end)
            <==> AllInside(geo, rows)
  {
    if AllInside(geo, rows) {
      var x0 :| 0 <= x0 < |rows| && rows[x0].x == e.minX;
      var x1 :| 0 <= x1 < |rows| && rows[x1].x == e.maxX;
      var y0 :| 0 <= y0 < |rows| && rows[y0].y == e.minY;
      var y1 :| 0 <= y1 < |rows| && rows[y1].y == e.maxY;
      assert geo.Has(rows[x0]) && geo.Has(rows[x1]) && geo.Has(rows[y0]) && geo.Has(rows[y1]);
    } else {
      var k :| 0 <= k < |rows| && !geo.Has(rows[k]);
      assert Bounds(e, rows[k]);
    }
  }

  lemma NoRows(geo: Geo, b: Box, cells: seq<real>, rows: seq<Row>)
    requires geo.Ok() && Valid(b) && |cells| == CellCount(b) && forall i :: 0 <= i < |cells| ==> cells[i] == NULL_DB
    ensures AllCellsAre(geo, rows, 0, b, cells)
  {
    hide Offset, CellCount;
    forall p | Covers(b, p) ensures CellIs(geo, rows, 0, b, cells, p) { OffsetBound(b, p); }
  }

  lemma RowStored(geo: Geo, rows: seq<Row>, n: nat, b: Box, cells: seq<real>)
    requires geo.Ok() && n < |rows| && Valid(b) && |cells| == CellCount(b) && Covers(b, geo.Point(rows[n]))
    requires AllCellsAre(geo, rows, n, b, cells)
    ensures 0 <= Offset(b, geo.Point(rows[n])) < |cells|
    ensures AllCellsAre(geo, rows, n + 1, b, cells[Offset(b, geo.Point(rows[n])) := rows[n].h])
  {
    hide Offset, CellCount, Geo.Point, CellIs;
    var q := geo.Point(rows[n]);
    OffsetBound(b, q);
    var after := cells[Offset(b, q) := rows[n].h];
    forall p | Covers(b, p) ensures CellIs(geo, rows, n + 1, b, after, p) {
      CellStored(geo, rows, n, b, cells, p);
    }
  }

  lemma CellStored(geo: Geo, rows: seq<Row>, n: nat, b: Box, cells: seq<real>, p: Point)
    requires geo.Ok() && n < |rows| && Valid(b) && |cells| == CellCount(b)
    requires Covers(b, geo.Point(rows[n])) && Covers(b, p) && CellIs(geo, rows, n, b, cells, p)
    ensures 0 <= Offset(b, geo.Point(rows[n])) < |cells|
    ensures CellIs(geo, rows, n + 1, b, cells[Offset(b, geo.Point(rows[n])) := rows[n].h], p)
  {
    hide Offset, CellCount, Geo.Point, PointAt, Covers, Valid;
    OffsetBound(b, geo.Point(rows[n]));
    OffsetBound(b, p);
    PointAtOffset(b, p);
    PointAtOffset(b, geo.Point(rows[n]));
  }

  /** The state of a conversion: the options, the limits of the rows and the rows themselves. */
  class Converter {
    const geo: Geo
    var range: Extremes
    var demRows: seq<Row>

    constructor (geo: Geo)
      ensures this.geo == geo && demRows == []
    {
      this.geo, range, demRows := geo, NO_ROWS, [];
    }

    method CheckLimits() returns (ok: bool)
      ensures ok <==> geo.x.start <= range.minX && range.maxX <= geo.x.end && geo.y.start <= range.minY && range.maxY <= geo.y.end
    {
      if geo.x.start > range.minX { return false; }
      if geo.x.end < range.maxX { return false; }
      if geo.y.start > range.minY { return false; }
      if geo.y.end < range.maxY { return false; }
      return true;
    }

    /** `readFromSrcStream`: rows, their limits, and whether the options allow them. */
    method ReadFromSrcStream(lines: seq<Option<Row>>) returns (ok: bool)
      requires forall i :: 0 <= i < |lines| && lines[i].Some? ==> IsDouble(lines[i].value)
      modifies this
      ensures demRows == Parsed(lines) && (demRows != [] ==> IsExtremes(range, demRows))
      ensures ok <==> demRows != [] && AllInside(geo, demRows)
    {
      hide IsExtremes, Wider, AllInside;
      range, demRows := NO_ROWS, [];
      for i := 0 to |lines|
        invariant demRows == Parsed(lines[..i])
        invariant if demRows == [] then range == NO_ROWS else IsExtremes(range, demRows)
      {
        assert lines[..i + 1][..i] == lines[..i];
        if lines[i].Some? {
          var currRow := lines[i].value;
          if currRow.h == ZERO_DEM { currRow := currRow.(h := ZERO_DB); }
          WiderExtremes(range, demRows, currRow);
          range := Wider(range, currRow);
          demRows := demRows + [currRow];
        }
      }
      assert lines[..|lines|] == lines;
      if demRows == [] { return false; }
      LimitsDecide(geo, demRows, range);
      ok := CheckLimits();
    }

    /** `writeFromDestStream`: each row's height goes to its cell. */
    method WriteFromDestStream(dest: array<real>, destInterv: Box)
      requires geo.Ok() && |destInterv| == 2 && Valid(destInterv) && dest.Length == CellCount(destInterv)
      requires forall i :: 0 <= i < dest.Length ==> dest[i] == NULL_DB
      requires forall k :: 0 <= k < |demRows| ==> Covers(destInterv, geo.Point(demRows[k]))
      modifies dest
      ensures AllCellsAre(geo, demRows, |demRows|, destInterv, dest[..])
    {
      hide Offset, CellCount, AllCellsAre, Axis.Cell;
      NoRows(geo, destInterv, dest[..], demRows);
      for i := 0 to |demRows|
        invariant AllCellsAre(geo, demRows, i, destInterv, dest[..])
      {
        var row := demRows[i];
        var currPt := [geo.x.Cell(row.x), geo.y.Cell(row.y)];
        assert currPt == geo.Point(row);
        var offset := CellOffset(destInterv, currPt);
        RowStored(geo, demRows, i, destInterv, dest[..]);
        ghost var before := dest[..];
        dest[offset.value] := row.h;
        assert dest[..] == before[offset.value := row.h];
      }
    }

    /** `convertFrom`: fails without rows, outside the limits, or when the domain comes out reversed. */
    method ConvertFrom(lines: seq<Option<Row>>) returns (r: Option<(Box, seq<real>)>)
      requires geo.Ok() && forall i :: 0 <= i < |lines| && lines[i].Some? ==> IsDouble(lines[i].value)
      modifies this
      ensures var rows := Parsed(lines);
              && (r.Some? <==> && rows != [] && AllInside(geo, rows)
                               && (geo.x.res > 0.0 || OneCell(geo.x, Xs(rows))) && (geo.y.res > 0.0 || OneCell(geo.y, Ys(rows))))
              && (r.Some? ==> && Valid(r.value.0) && |r.value.1| == CellCount(r.value.0) && Tight(geo, rows, r.value.0)
                              && AllCellsAre(geo, rows, |rows|, r.value.0, r.value.1))
    {
      hide Offset, CellCount, AllCellsAre, Axis.Cell, IsExtremes, AllInside, OneCell, Geo.Point;
      var ok := ReadFromSrcStream(lines);
      if !ok { return None; }
      DomainExists(geo, demRows, range);
      DomainTight(geo, demRows, range);
      var x := AxisInterval(geo.x, range.minX, range.maxX);
      var y := AxisInterval(geo.y, range.minY, range.maxY);
      if x.lo > x.hi || y.lo > y.hi { ValidPair(x, y); return None; }
      ValidPair(x, y);
      var destInterv := [x, y];
      var dest := new real[CellCount(destInterv)](_ => 0.0);
      WriteFromDestStream(dest, destInterv);
      return Some((destInterv, dest[..]));
    }

    /** `readToSrcStream`: one row per cell, x running fastest. */
    method ReadToSrcStream(b: Box, src: seq<real>) returns (ok: bool)
      requires |b| == 2 && Valid(b) && |src| == CellCount(b)
      modifies this
      ensures ok <==> Exportable(geo, b)
      ensures ok ==> demRows == CellRows(geo, b, src)
    {
      hide Offset, CellCount, RowCount, CellRow;
      range := Extremes(if geo.x.flip then geo.x.World(b[0].hi) else geo.x.World(b[0].lo),
                        if geo.x.flip then geo.x.World(b[0].lo) else geo.x.World(b[0].hi),
                        if geo.y.flip then geo.y.World(b[1].hi) else geo.y.World(b[1].lo),
                        if geo.y.flip then geo.y.World(b[1].lo) else geo.y.World(b[1].hi));
      ok := CheckLimits();
      if !ok { return; }
      demRows := [];
      ghost var all := CellRows(geo, b, src);
      var y := b[1].lo;
      RowStart(b, 0);
      while y <= b[1].hi
        invariant b[1].lo <= y <= b[1].hi + 1
        invariant |demRows| == (y - b[1].lo) * b[0].Extent() <= |all| && demRows == all[..|demRows|]
      {
        RowStart(b, y - b[1].lo);
        var x := b[0].lo;
        while x <= b[0].hi
          invariant b[0].lo <= x <= b[0].hi + 1
          invariant |demRows| == (y - b[1].lo) * b[0].Extent() + (x - b[0].lo) <= |all| && demRows == all[..|demRows|]
        {
          RowCell(geo, b, src, x, y);
          var offset := CellOffset(b, [x, y]);
          demRows := demRows + [Row(geo.x.World(x), geo.y.World(y), src[offset.value])];
          x := x + 1;
        }
        y := y + 1;
      }
      RowsEnd(b, y);
    }

    /** `writeToDestStream` */
    method WriteToDestStream() returns (lines: seq<Option<Row>>)
      ensures lines == Written(demRows)
    {
      lines := [];
      for i := 0 to |demRows|
        invariant lines == Written(demRows[..i])
      {
        assert demRows[..i + 1][..i] == demRows[..i];
        var row := demRows[i];
        if row.h != NULL_DB {
          if row.h == ZERO_DB { row := row.(h := ZERO_DEM); }
          lines := lines + [Some(row)];
        }
      }
      assert demRows[..|demRows|] == demRows;
    }

    /** `convertTo`: fails outside the limits and for an array that is all NULL. */
    method ConvertTo(b: Box, src: seq<real>) returns (r: Option<seq<Option<Row>>>)
      requires |b| == 2 && Valid(b) && |src| == CellCount(b)
      modifies this
      ensures r.Some? <==> Exportable(geo, b) && Written(CellRows(geo, b, src)) != []
      ensures r.Some? ==> r.value == Written(CellRows(geo, b, src))
    {
      hide CellCount, CellRows, Written, Exportable;
      var ok := ReadToSrcStream(b, src);
      if !ok { return None; }
      var lines := WriteToDestStream();
      if lines == [] { return None; }
      return Some(lines);
    }
  }

  lemma RowStart(b: Box, j: nat)
    requires |b| == 2 && Valid(b) && j < b[1].Extent()
    ensures 0 <= j * b[0].Extent() && (j + 1) * b[0].Extent() == j * b[0].Extent() + b[0].Extent() <= RowCount(b)
    ensures 0 * b[0].Extent() == 0
  {
    MulMono(0, j, b[0].Extent());
    MulMono(j + 1, b[1].Extent(), b[0].Extent());
  }

  lemma RowsEnd(b: Box, y: int)
    requires |b| == 2 && Valid(b) && y == b[1].hi + 1
    ensures (y - b[1].lo) * b[0].Extent() == RowCount(b)
  {
  }

  lemma RowCell(geo: Geo, b: Box, src: seq<real>, x: int, y: int)
    requires |b| == 2 && Valid(b) && |src| == CellCount(b) && b[0].Has(x) && b[1].Has(y)
    ensures var k := (y - b[1].lo) * b[0].Extent() + (x - b[0].lo);
            && 0 <= k < RowCount(b) && Covers(b, [x, y]) && 0 <= Offset(b, [x, y]) < |src|
            && CellRow(geo, b, src, k) == Row(geo.x.World(x), geo.y.World(y), src[Offset(b, [x, y])])
  {
    hide Offset, CellCount, RowCount;
    PositionOf(b, [x, y]);
    OffsetBound(b, [x, y]);
  }

  // ---------- both ways ----------

  lemma {:induction false} WrittenInside(geo: Geo, rows: seq<Row>)
    requires AllInside(geo, rows)
    ensures |Written(rows)| == |NonNull(rows)|
    ensures forall i :: 0 <= i < |Written(rows)| ==> Written(rows)[i].Some? && geo.Has(Written(rows)[i].value)
  {
    if rows != [] {
      var d := |rows| - 1;
      assert geo.Has(rows[d]);
      forall k | 0 <= k < d ensures geo.Has(rows[..d][k]) { assert rows[..d][k] == rows[k]; }
      WrittenInside(geo, rows[..d]);
    }
  }

  lemma ExportedInside(geo: Geo, b: Box, src: seq<real>)
    requires geo.Ok() && geo.x.res > 0.0 && geo.y.res > 0.0
    requires |b| == 2 && Valid(b) && |src| == CellCount(b) && Exportable(geo, b)
    ensures var lines := Written(CellRows(geo, b, src));
            && (lines == [] <==> Parsed(lines) == [])
            && forall i :: 0 <= i < |lines| ==> lines[i].Some? && geo.Has(lines[i].value)
  {
    hide Offset, CellCount, Exportable, Axis.Cell, Axis.World, RowCount, Written, Parsed, NonNull, CellRow, Geo.Has;
    var rows := CellRows(geo, b, src);
    forall k | 0 <= k < |rows| ensures geo.Has(rows[k]) { RowAtCell(geo, b, src, k); }
    WrittenInside(geo, rows);
    ParsedWritten(rows);
  }

  /** The options are doubles too. */
  predicate InDoubles(ax: Axis) { -DBL_MAX <= ax.start && ax.end <= DBL_MAX }

  /** `convertTo` and then `convertFrom` with the same options. */
  method ExportThenImport(geo: Geo, b: Box, src: seq<real>) returns (r: Option<(Box, seq<real>)>)
    requires geo.Ok() && geo.x.res > 0.0 && geo.y.res > 0.0 && InDoubles(geo.x) && InDoubles(geo.y)
    requires |b| == 2 && Valid(b) && |src| == CellCount(b)
    ensures r.Some? <==> Exportable(geo, b) && exists p :: HasValue(b, src, p)
    ensures r.Some? ==>
      && Valid(r.value.0) && |r.value.1| == CellCount(r.value.0)
      && Inside(r.value.0, b) && HoldsValues(b, src, r.value.0)
      && (forall c: Box :: |c| == 2 && HoldsValues(b, src, c) ==> Inside(r.value.0, c))
      && forall p :: Covers(r.value.0, p) ==> Covers(b, p) && SameCell(b, src, r.value.0, r.value.1, p)
  {
    hide CellCount, Exportable, HasValue, HoldsValues, SameCell, Written, Parsed, CellRows, AllCellsAre, Tight, Inside, AllInside, OneCell;
    if Exportable(geo, b) {
      ImportAccepts(geo, b, src);
      ExportedInside(geo, b, src);
    }
    var exporter := new Converter(geo);
    var lines := exporter.ConvertTo(b, src);
    if lines.None? { return None; }
    var importer := new Converter(geo);
    r := importer.ConvertFrom(lines.value);
    RoundTrip(geo, b, src, r.value.0, r.value.1);
  }
}
