/**
 The arithmetic of SearchParameters.cs that sizes and subdivides the voxel
 lattice, locates the start and end cells, and scales the boxes in
 AdjustBoxes; and the explicit-grid constructor the path finder runs on.

 Coordinates and extents are exact reals. A point is three coordinates; a
 box of the lattice is the product of one segment per axis, and containment
 in a box is containment in each of its three segments.
 */
module SearchParameters {
  import opened Wrappers
  import opened Lattice

  /** The threshold below which the source treats an extent or a coordinate
      difference as zero. */
  const Epsilon: real := 0.0001

  /** A Rhino interval from `t0` to `t1`; it may run backwards. */
  datatype Interval = Interval(t0: real, t1: real)

  datatype Point = Point(x: real, y: real, z: real)

  /** `Interval.Length`: signed, negative when the interval runs backwards. */
  function Length(i: Interval): real {
    i.t1 - i.t0
  }

  function RealAbs(r: real): real {
    if r < 0.0 then -r else r
  }

  function Max(a: int, b: int): int {
    if a < b then b else a
  }

  // ---------------------------------------------------------------------------
  // Cell counts
  // ---------------------------------------------------------------------------

  /** Truncation toward zero. */
  function Trunc(r: real): (n: int)
    ensures 0.0 <= r ==> n as real <= r < n as real + 1.0
    ensures r < 0.0 ==> n as real - 1.0 < r <= n as real
  {
    if r >= 0.0 then r.Floor else -((-r).Floor)
  }

  /** C#'s `%` on doubles: the remainder of the quotient truncated toward zero,
      carrying the sign of the dividend. */
  function Rem(a: real, b: real): real
    requires b != 0.0
  {
    a - b * Trunc(a / b) as real
  }

  /** `Convert.ToInt32((extent - extent % dpi) / dpi)`. The quotient is a whole
      number in exact arithmetic, so the rounding of Convert.ToInt32 does not
      move it; it is `extent / dpi` truncated toward zero. */
  function WholeQuotient(extent: real, dpi: real): (q: int)
    requires dpi != 0.0
    ensures q as real == (extent - Rem(extent, dpi)) / dpi
    ensures 0.0 <= extent / dpi ==> q as real <= extent / dpi < q as real + 1.0
  {
    var t := Trunc(extent / dpi);
    assert extent - Rem(extent, dpi) == dpi * t as real;
    t
  }

  /** The cell count of a divided axis: `Math.Max(..., 4)` cells across the
      domain, then four more for the two padding cells on either side. */
  function CellCount(extent: real, dpi: real): (n: int)
    requires dpi != 0.0
    ensures n >= 8
    ensures extent / dpi < 4.0 ==> n == 8
    ensures extent / dpi >= 4.0 ==> (n - 4) as real <= extent / dpi < (n - 4) as real + 1.0
  {
    Max(WholeQuotient(extent, dpi), 4) + 4
  }

  // ---------------------------------------------------------------------------
  // DivideDomain
  // ---------------------------------------------------------------------------

  /** Cell `j` of a domain cut into `res` equal parts, counted from the domain's
      start; the padding cells are `j = -2, -1` and `j = res, res + 1`. */
  function Cell(domain: Interval, res: int, j: int): Interval
    requires res > 0
  {
    var l := Length(domain) / res as real;
    Interval(domain.t0 + j as real * l, domain.t0 + (j + 1) as real * l)
  }

  /** `segs` is a domain divided into `res` cells with two padding cells on each side. */
  predicate Divides(segs: seq<Interval>, domain: Interval, res: int)
    requires res > 0
  {
    |segs| == res + 4 && forall i :: 0 <= i < |segs| ==> segs[i] == Cell(domain, res, i - 2)
  }

  /** The padding intervals DivideDomain writes out are the cells just before
      and just after the domain. */
  lemma PaddingCells(domain: Interval, res: int)
    requires res > 0
    ensures var l := Length(domain) / res as real;
      && Cell(domain, res, -2) == Interval(domain.t0 - l * 2.0, domain.t0 - l)
      && Cell(domain, res, -1) == Interval(domain.t0 - l, domain.t0)
      && Cell(domain, res, res) == Interval(domain.t1, domain.t1 + l)
      && Cell(domain, res, res + 1) == Interval(domain.t1 + l, domain.t1 + l * 2.0)
  {
    var l := Length(domain) / res as real;
    assert res as real * l == Length(domain);
    assert (res + 1) as real * l == res as real * l + l;
    assert (res + 2) as real * l == res as real * l + l * 2.0;
  }

  /** DivideDomain: two padding intervals before the domain's start, `res`
      equal intervals across it, two padding intervals after its end. */
  method DivideDomain(domain: Interval, res: int) returns (segs: seq<Interval>)
    requires res > 0
    ensures Divides(segs, domain, res)
  {
    var t0 := domain.t0;
    var t1 := domain.t1;
    var l := Length(domain) / res as real;
    var inner := InnerCells(domain, res);
    segs := [Interval(t0 - l * 2.0, t0 - l), Interval(t0 - l, t0)] + inner + [Interval(t1, t1 + l), Interval(t1 + l, t1 + l * 2.0)];
    PaddingCells(domain, res);
    AssembleDivision(domain, res, inner, segs);
  }

  /** The `for` loop of DivideDomain: the `res` intervals across the domain. */
  method InnerCells(domain: Interval, res: int) returns (inner: seq<Interval>)
    requires res > 0
    ensures |inner| == res && forall k :: 0 <= k < res ==> inner[k] == Cell(domain, res, k)
  {
    var t0 := domain.t0;
    var l := Length(domain) / res as real;
    inner := [];
    var i := 0;
    while i < res
      invariant 0 <= i <= res
      invariant |inner| == i
      invariant forall k :: 0 <= k < i ==> inner[k] == Cell(domain, res, k)
    {
      inner := inner + [Interval(t0 + i as real * l, t0 + (i + 1) as real * l)];
      i := i + 1;
    }
  }

  lemma AssembleDivision(domain: Interval, res: int, inner: seq<Interval>, segs: seq<Interval>)
    requires res > 0
    requires |inner| == res && forall k :: 0 <= k < res ==> inner[k] == Cell(domain, res, k)
    requires segs == [Cell(domain, res, -2), Cell(domain, res, -1)] + inner + [Cell(domain, res, res), Cell(domain, res, res + 1)]
    ensures Divides(segs, domain, res)
  {
    forall i | 0 <= i < |segs| ensures segs[i] == Cell(domain, res, i - 2) {
      if 2 <= i < res + 2 {
        assert segs[i] == inner[i - 2];
      }
    }
  }

  /** In exact arithmetic the intervals of a divided domain all have width
      `length / res`, follow one another without gap or overlap, run from
      `t0 - 2l` to `t1 + 2l`, and the `res` inner ones span the domain exactly. */
  lemma {:induction false} DividedDomainTiles(segs: seq<Interval>, domain: Interval, res: int)
    requires res > 0 && Divides(segs, domain, res)
    ensures forall i :: 0 <= i < |segs| ==> Length(segs[i]) == Length(domain) / res as real
    ensures forall i :: 0 <= i < |segs| - 1 ==> segs[i].t1 == segs[i + 1].t0
    ensures segs[0].t0 == domain.t0 - 2.0 * (Length(domain) / res as real)
    ensures segs[|segs| - 1].t1 == domain.t1 + 2.0 * (Length(domain) / res as real)
    ensures segs[2].t0 == domain.t0 && segs[res + 1].t1 == domain.t1
  {
    var l := Length(domain) / res as real;
    forall i | 0 <= i < |segs| ensures Length(segs[i]) == l {
      CellWidth(domain, res, i - 2);
    }
    forall i | 0 <= i < |segs| - 1 ensures segs[i].t1 == segs[i + 1].t0 {
      assert segs[i] == Cell(domain, res, i - 2) && segs[i + 1] == Cell(domain, res, i - 1);
    }
    PaddingCells(domain, res);
    assert segs[0] == Cell(domain, res, -2) && segs[|segs| - 1] == Cell(domain, res, res + 1);
    assert segs[2] == Cell(domain, res, 0) && segs[res + 1] == Cell(domain, res, res - 1);
    assert Cell(domain, res, res - 1).t1 == Cell(domain, res, res).t0;
  }

  lemma CellWidth(domain: Interval, res: int, j: int)
    requires res > 0
    ensures Length(Cell(domain, res, j)) == Length(domain) / res as real
  {
    var l := Length(domain) / res as real;
    assert (j + 1) as real * l == j as real * l + l;
  }

  // ---------------------------------------------------------------------------
  // Lattice layout
  // ---------------------------------------------------------------------------

  /** The lattice dimensions and the segment list of each axis. */
  datatype Layout = Layout(dims: Dims, segX: seq<Interval>, segY: seq<Interval>, segZ: seq<Interval>)

  /** Each axis has exactly as many segments as cells. */
  predicate WellSized(l: Layout) {
    && |l.segX| == l.dims.length
    && |l.segY| == l.dims.width
    && |l.segZ| == l.dims.height
  }

  predicate Thin(domain: Interval) {
    RealAbs(Length(domain)) < Epsilon
  }

  /** One axis of the layout: a single cell holding the whole domain when
      collapsed, otherwise the divided domain with its padding. */
  method AxisSegments(domain: Interval, dpi: real, collapse: bool) returns (n: int, segs: seq<Interval>)
    requires dpi != 0.0
    ensures |segs| == n
    ensures collapse ==> n == 1 && segs == [domain]
    ensures !collapse ==> n == CellCount(Length(domain), dpi) && Divides(segs, domain, n - 4)
  {
    if collapse {
      n, segs := 1, [domain];
    } else {
      var res := Max(WholeQuotient(Length(domain), dpi), 4);
      segs := DivideDomain(domain, res);
      n := res + 4;
    }
  }

  /** The sizing half of the SearchParameters constructor. On a bounding box
      that is not degenerate every axis is divided. On a degenerate one the
      else-if chain collapses the first axis among X, Y, Z whose extent is
      below Epsilon to one cell, and divides the other two. */
  method LayoutLattice(dx: Interval, dy: Interval, dz: Interval, dpi: real, boxDegenerate: bool) returns (l: Layout)
    requires dpi != 0.0
    ensures WellSized(l)
    ensures l.dims.length == 1 <==> boxDegenerate && Thin(dx)
    ensures l.dims.width == 1 <==> boxDegenerate && !Thin(dx) && Thin(dy)
    ensures l.dims.height == 1 <==> boxDegenerate && !Thin(dx) && !Thin(dy) && Thin(dz)
    ensures l.dims.length == 1 ==> l.segX == [dx]
    ensures l.dims.width == 1 ==> l.segY == [dy]
    ensures l.dims.height == 1 ==> l.segZ == [dz]
    ensures l.dims.length != 1 ==> l.dims.length == CellCount(Length(dx), dpi) && Divides(l.segX, dx, l.dims.length - 4)
    ensures l.dims.width != 1 ==> l.dims.width == CellCount(Length(dy), dpi) && Divides(l.segY, dy, l.dims.width - 4)
    ensures l.dims.height != 1 ==> l.dims.height == CellCount(Length(dz), dpi) && Divides(l.segZ, dz, l.dims.height - 4)
  {
    var cx, cy, cz := false, false, false;
    if boxDegenerate {
      if Thin(dx) {
        cx := true;
      } else if Thin(dy) {
        cy := true;
      } else if Thin(dz) {
        cz := true;
      }
    }
    var nx, sx := AxisSegments(dx, dpi, cx);
    var ny, sy := AxisSegments(dy, dpi, cy);
    var nz, sz := AxisSegments(dz, dpi, cz);
    l := Layout(Dims(nx, ny, nz), sx, sy, sz);
  }

  /** The else-if chain collapses one axis only: on a degenerate box whose X
      and Y are both thin, X becomes one cell and Y is still divided, into
      eight cells of (near) zero width when the pitch is at least Epsilon. */
  method OnlyFirstThinAxisCollapses(dx: Interval, dy: Interval, dz: Interval, dpi: real) returns (l: Layout)
    requires dpi != 0.0 && Thin(dx) && Thin(dy)
    ensures WellSized(l)
    ensures l.dims.length == 1 && l.segX == [dx]
    ensures l.dims.width >= 8 && Divides(l.segY, dy, l.dims.width - 4)
    ensures RealAbs(dpi) >= Epsilon ==> l.dims.width == 8
  {
    l := LayoutLattice(dx, dy, dz, dpi, true);
    if RealAbs(dpi) >= Epsilon {
      RatioBound(Length(dy), dpi);
    }
  }

  /** Below Epsilon divided by a step of at least Epsilon is below 1. */
  lemma RatioBound(a: real, b: real)
    requires RealAbs(a) < Epsilon && RealAbs(b) >= Epsilon
    ensures a / b < 1.0
  {
    if b > 0.0 {
      assert a < b;
      assert a / b < b / b;
    } else {
      assert -a < -b;
      assert a / b == (-a) / (-b);
      assert (-a) / (-b) < (-b) / (-b);
    }
  }

  // ---------------------------------------------------------------------------
  // Locating the start and end cells
  // ---------------------------------------------------------------------------

  /** `Interval.IncludesParameter`: between the ends, both included, in either direction. */
  predicate Includes(i: Interval, v: real) {
    if i.t0 <= i.t1 then i.t0 <= v <= i.t1 else i.t1 <= v <= i.t0
  }

  /** `Boxes[x, y, z].Contains(p)` for the box built from the axis segments. */
  predicate BoxContains(l: Layout, j: Index, p: Point)
    requires WellSized(l) && InBounds(l.dims, j)
  {
    Includes(l.segX[j.x], p.x) && Includes(l.segY[j.y], p.y) && Includes(l.segZ[j.z], p.z)
  }

  /** The order in which the fill loop visits cells: x outermost, then y, then z. */
  predicate LoopBefore(a: Index, b: Index) {
    || a.x < b.x
    || (a.x == b.x && a.y < b.y)
    || (a.x == b.x && a.y == b.y && a.z < b.z)
  }

  /** `found` is the last cell visited before `bound` whose box contains `p`,
      or None when none of them does. */
  ghost predicate LastBefore(l: Layout, p: Point, found: Option<Index>, bound: Index)
    requires WellSized(l)
  {
    && (found.Some? ==> InBounds(l.dims, found.value) && LoopBefore(found.value, bound) && BoxContains(l, found.value, p))
    && (forall j :: InBounds(l.dims, j) && LoopBefore(j, bound) && BoxContains(l, j, p) ==>
          found.Some? && (j == found.value || LoopBefore(j, found.value)))
  }

  /** The StartNodeID / EndNodeID assignment of the fill loop: each containing
      box overwrites the id, so the result is the last containing cell in loop
      order; it is None (the id stays unset) when no box contains the point. */
  method LocateCell(l: Layout, p: Point) returns (found: Option<Index>)
    requires WellSized(l)
    ensures found.Some? ==> InBounds(l.dims, found.value) && BoxContains(l, found.value, p)
    ensures found.Some? ==> forall j :: InBounds(l.dims, j) && BoxContains(l, j, p) ==>
              j == found.value || LoopBefore(j, found.value)
    ensures found.None? <==> forall j :: InBounds(l.dims, j) ==> !BoxContains(l, j, p)
  {
    found := None;
    var x := 0;
    while x < l.dims.length
      invariant 0 <= x && (0 < l.dims.length ==> x <= l.dims.length)
      invariant LastBefore(l, p, found, Index(x, 0, 0))
    {
      var y := 0;
      while y < l.dims.width
        invariant 0 <= y && (0 < l.dims.width ==> y <= l.dims.width)
        invariant LastBefore(l, p, found, Index(x, y, 0))
      {
        var z := 0;
        while z < l.dims.height
          invariant 0 <= z && (0 < l.dims.height ==> z <= l.dims.height)
          invariant LastBefore(l, p, found, Index(x, y, z))
        {
          var next := if BoxContains(l, Index(x, y, z), p) then Some(Index(x, y, z)) else found;
          LastBeforeStep(l, p, found, Index(x, y, z), next);
          found := next;
          z := z + 1;
        }
        LastBeforeRow(l, p, found, x, y, z);
        y := y + 1;
      }
      LastBeforeLayer(l, p, found, x, y);
      x := x + 1;
    }
    LastBeforeDone(l, p, found, x);
  }

  lemma LastBeforeDone(l: Layout, p: Point, found: Option<Index>, x: int)
    requires WellSized(l) && x >= l.dims.length && LastBefore(l, p, found, Index(x, 0, 0))
    ensures found.Some? ==> InBounds(l.dims, found.value) && BoxContains(l, found.value, p)
    ensures found.Some? ==> forall j :: InBounds(l.dims, j) && BoxContains(l, j, p) ==>
              j == found.value || LoopBefore(j, found.value)
    ensures found.None? <==> forall j :: InBounds(l.dims, j) ==> !BoxContains(l, j, p)
  {
  }

  lemma LastBeforeStep(l: Layout, p: Point, found: Option<Index>, i: Index, next: Option<Index>)
    requires WellSized(l) && InBounds(l.dims, i) && LastBefore(l, p, found, i)
    requires next == if BoxContains(l, i, p) then Some(i) else found
    ensures LastBefore(l, p, next, Index(i.x, i.y, i.z + 1))
  {
  }

  lemma LastBeforeRow(l: Layout, p: Point, found: Option<Index>, x: int, y: int, z: int)
    requires WellSized(l) && z >= l.dims.height && LastBefore(l, p, found, Index(x, y, z))
    ensures LastBefore(l, p, found, Index(x, y + 1, 0))
  {
  }

  lemma LastBeforeLayer(l: Layout, p: Point, found: Option<Index>, x: int, y: int)
    requires WellSized(l) && y >= l.dims.width && LastBefore(l, p, found, Index(x, y, 0))
    ensures LastBefore(l, p, found, Index(x + 1, 0, 0))
  {
  }

  // ---------------------------------------------------------------------------
  // AdjustBoxes
  // ---------------------------------------------------------------------------

  /** The scale factor of one axis in AdjustBoxes, for start coordinate `s`, end
      coordinate `e` and goal-cell centre coordinate `c` (after the translation
      that puts the start cell's centre on the start point): 1 when `c` is within
      Epsilon of `s`, otherwise the ratio of the distances from `s` to `e` and
      to `c`. */
  function ScaleFactor(s: real, e: real, c: real): (k: real)
    ensures k >= 0.0
    ensures RealAbs(s - c) < Epsilon ==> k == 1.0
    ensures RealAbs(s - c) >= Epsilon ==> k * RealAbs(s - c) == RealAbs(s - e)
    ensures s == e && RealAbs(s - c) >= Epsilon ==> k == 0.0
  {
    if RealAbs(s - c) < Epsilon then 1.0 else RealAbs(s - e) / RealAbs(s - c)
  }

  /** One coordinate of a box corner after AdjustBoxes: translated by
      `s - startCentre`, then scaled by `k` about the start point. */
  function Adjust(v: real, s: real, startCentre: real, k: real): real {
    s + k * ((v + (s - startCentre)) - s)
  }

  /** AdjustBoxes keeps the start point where it is (the start cell's centre
      lands on it). On each axis the goal cell's centre, once translated to
      `c`, lands exactly on the end point when it lies on the end point's side
      of the start and at least Epsilon away; on the other side it lands on
      the mirror image of the end point; within Epsilon the factor is 1 and it
      stays at `c`. */
  lemma {:induction false} AdjustAligns(s: real, e: real, startCentre: real, endCentre: real)
    ensures var c := endCentre + (s - startCentre);
      && Adjust(startCentre, s, startCentre, ScaleFactor(s, e, c)) == s
      && (RealAbs(s - c) >= Epsilon && (c - s) * (e - s) >= 0.0 ==>
            Adjust(endCentre, s, startCentre, ScaleFactor(s, e, c)) == e)
      && (RealAbs(s - c) >= Epsilon && (c - s) * (e - s) < 0.0 ==>
            Adjust(endCentre, s, startCentre, ScaleFactor(s, e, c)) == 2.0 * s - e)
      && (RealAbs(s - c) < Epsilon ==> Adjust(endCentre, s, startCentre, ScaleFactor(s, e, c)) == c)
  {
    var c := endCentre + (s - startCentre);
    var k := ScaleFactor(s, e, c);
    AdjustIsScaledOffset(startCentre, s, startCentre, k);
    AdjustIsScaledOffset(endCentre, s, startCentre, k);
    if RealAbs(s - c) >= Epsilon {
      ScaledOffset(s, e, c, k);
    } else {
      assert k == 1.0;
    }
  }

  lemma AdjustIsScaledOffset(v: real, s: real, startCentre: real, k: real)
    ensures Adjust(v, s, startCentre, k) == s + k * (v - startCentre)
  {
  }

  /** Away from the start, the scaled offset `k * (c - s)` has the length of
      `e - s`, with the sign of `c - s`. */
  lemma ScaledOffset(s: real, e: real, c: real, k: real)
    requires RealAbs(s - c) >= Epsilon && k == ScaleFactor(s, e, c)
    ensures (c - s) * (e - s) >= 0.0 ==> k * (c - s) == e - s
    ensures (c - s) * (e - s) < 0.0 ==> k * (c - s) == s - e
  {
    assert k * RealAbs(s - c) == RealAbs(s - e);
    if c > s {
      assert k * (c - s) == RealAbs(s - e);
      if (c - s) * (e - s) >= 0.0 {
        SameSign(c - s, e - s);
      } else {
        OppositeSign(c - s, e - s);
      }
    } else {
      assert k * (s - c) == RealAbs(s - e);
      if (c - s) * (e - s) >= 0.0 {
        assert (s - c) * (s - e) >= 0.0;
        SameSign(s - c, s - e);
      } else {
        assert (s - c) * (s - e) < 0.0;
        OppositeSign(s - c, s - e);
      }
    }
  }

  /** A negative product with a positive factor has a negative other factor. */
  lemma OppositeSign(a: real, b: real)
    requires a > 0.0 && a * b < 0.0
    ensures b < 0.0
  {
  }

  /** A non-negative product with a positive factor has a non-negative other factor. */
  lemma SameSign(a: real, b: real)
    requires a > 0.0 && a * b >= 0.0
    ensures b >= 0.0
  {
  }

  // ---------------------------------------------------------------------------
  // Walkability and the explicit-grid constructor
  // ---------------------------------------------------------------------------

  /** BoxIntersectWithObstacle with the per-obstacle geometry test `hits` as a
      parameter: false at once for an empty list, otherwise true at the first
      obstacle the box hits. */
  function Intersects<O>(k: Index, obstacles: seq<O>, hits: (Index, O) -> bool): (b: bool)
    ensures b <==> exists i :: 0 <= i < |obstacles| && hits(k, obstacles[i])
  {
    if |obstacles| == 0 then false
    else if hits(k, obstacles[0]) then true
    else
      var b := Intersects(k, obstacles[1..], hits);
      assert forall i :: 1 <= i < |obstacles| ==> obstacles[i] == obstacles[1..][i - 1];
      b
  }

  /** The Environment array: a cell is walkable exactly when its box hits no
      obstacle, so with no obstacles every cell is walkable. */
  function Classify<O>(cells: set<Index>, obstacles: seq<O>, hits: (Index, O) -> bool): (env: map<Index, bool>)
    ensures env.Keys == cells
    ensures forall k :: k in cells ==> (env[k] <==> forall o :: o in obstacles ==> !hits(k, o))
    ensures obstacles == [] ==> forall k :: k in cells ==> env[k]
  {
    map k | k in cells :: !Intersects(k, obstacles, hits)
  }

  /** A SearchParameters built from an explicit grid: dimensions, start and end
      ids, a location per cell and a walkability flag per cell. */
  datatype Grid<L> = Grid(
    dims: Dims,
    startId: Index,
    endId: Index,
    points: map<Index, L>,
    environment: map<Index, bool>,
    startLocation: L,
    endLocation: L)

  /** The explicit-grid constructor: stores what it is given and reads the
      start and end locations out of `points`; it fails (the source throws)
      when either id has no point. */
  function NewGrid<L>(x: int, y: int, z: int, startId: Index, endId: Index, points: map<Index, L>, environment: map<Index, bool>): (g: Option<Grid<L>>)
    ensures g.Some? <==> startId in points && endId in points
    ensures g.Some? ==> g.value.dims == Dims(x, y, z) && g.value.startId == startId && g.value.endId == endId
    ensures g.Some? ==> g.value.points == points && g.value.environment == environment
    ensures g.Some? ==> g.value.startLocation == points[startId] && g.value.endLocation == points[endId]
  {
    if startId in points && endId in points then
      Some(Grid(Dims(x, y, z), startId, endId, points, environment, points[startId], points[endId]))
    else None
  }
}
