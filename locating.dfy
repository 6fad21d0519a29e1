/**
 * Connected-component location on an 8-bit surface whose pixels are 0
 * (BLACK) or 255 (WHITE): per-pixel access, black-pixel projections, the grid
 * bounds they imply, a 4-connected flood fill that grows a bounding box, and
 * the per-character extraction built on it. The surface is `img[y, x]`, with
 * `img.Length0` rows and `img.Length1` columns.
 */
module Locating {
  import opened BinaryImage
  import opened Geometry
  import opened Components

  /** get_pixel: the value at (x, y), or BLACK outside the surface. */
  function GetPixel(img: array2<Byte>, x: int, y: int): (v: Byte)
    reads img
    ensures !(0 <= x < img.Length1 && 0 <= y < img.Length0) ==> v == BLACK
    ensures 0 <= x < img.Length1 && 0 <= y < img.Length0 ==> v == img[y, x]
  {
    if x < 0 || x >= img.Length1 || y < 0 || y >= img.Length0 then 0
    else img[y, x]
  }

  /** set_pixel: writes one pixel; a write outside the surface is ignored. */
  method SetPixel(img: array2<Byte>, x: int, y: int, value: Byte)
    modifies img
    ensures 0 <= x < img.Length1 && 0 <= y < img.Length0 ==> GetPixel(img, x, y) == value
    ensures forall j, i :: 0 <= j < img.Length0 && 0 <= i < img.Length1 && (j != y || i != x) ==> img[j, i] == old(img[j, i])
  {
    if x < 0 || x >= img.Length1 || y < 0 || y >= img.Length0 {
      return;
    }
    img[y, x] := value;
  }

  /** The surface as rows of values. */
  ghost function Snapshot(img: array2<Byte>): (g: seq<seq<Byte>>)
    reads img
    ensures |g| == img.Length0 && forall y :: 0 <= y < |g| ==> |g[y]| == img.Length1
  {
    seq(img.Length0, y requires 0 <= y < img.Length0 reads img => seq(img.Length1, x requires 0 <= x < img.Length1 reads img => img[y, x]))
  }

  /** The number of BLACK values among the first `n` of a row. */
  function RowBlack(row: seq<Byte>, n: nat): nat
    requires n <= |row|
  {
    if n == 0 then 0 else RowBlack(row, n - 1) + (if row[n - 1] == BLACK then 1 else 0)
  }

  /** The number of BLACK values in column `x` among the first `n` rows. */
  function ColumnBlack(g: seq<seq<Byte>>, w: nat, x: int, n: nat): nat
    requires Rectangular(g, w) && 0 <= x < w && n <= |g|
  {
    if n == 0 then 0 else ColumnBlack(g, w, x, n - 1) + (if g[n - 1][x] == BLACK then 1 else 0)
  }

  /** The column counts of the first `m` columns over the first `n` rows, added up. */
  function ColumnsTotal(g: seq<seq<Byte>>, w: nat, m: nat, n: nat): nat
    requires Rectangular(g, w) && m <= w && n <= |g|
  {
    if m == 0 then 0 else ColumnsTotal(g, w, m - 1, n) + ColumnBlack(g, w, m - 1, n)
  }

  /** The row counts of the first `n` rows over the first `m` columns, added up. */
  function RowsTotal(g: seq<seq<Byte>>, w: nat, m: nat, n: nat): nat
    requires Rectangular(g, w) && m <= w && n <= |g|
  {
    if n == 0 then 0 else RowsTotal(g, w, m, n - 1) + RowBlack(g[n - 1], m)
  }

  /** One more row adds its own count to the column totals. */
  lemma {:induction false} ColumnsTotalRow(g: seq<seq<Byte>>, w: nat, m: nat, n: nat)
    requires Rectangular(g, w) && m <= w && n < |g|
    ensures ColumnsTotal(g, w, m, n + 1) == ColumnsTotal(g, w, m, n) + RowBlack(g[n], m)
  {
    if m > 0 {
      ColumnsTotalRow(g, w, m - 1, n);
    }
  }

  /** Counting the BLACK pixels column by column or row by row gives the same total. */
  lemma {:induction false} ProjectionTotals(g: seq<seq<Byte>>, w: nat, n: nat)
    requires Rectangular(g, w) && n <= |g|
    ensures ColumnsTotal(g, w, w, n) == RowsTotal(g, w, w, n)
  {
    if n == 0 {
      ColumnsTotalEmpty(g, w, w);
    } else {
      ProjectionTotals(g, w, n - 1);
      ColumnsTotalRow(g, w, w, n - 1);
    }
  }

  lemma {:induction false} ColumnsTotalEmpty(g: seq<seq<Byte>>, w: nat, m: nat)
    requires Rectangular(g, w) && m <= w
    ensures ColumnsTotal(g, w, m, 0) == 0
  {
    if m > 0 {
      ColumnsTotalEmpty(g, w, m - 1);
    }
  }

  /**
   * compute_projections: adds to projX[x] the number of BLACK pixels of column
   * x and to projY[y] the number of BLACK pixels of row y.
   */
  method ComputeProjections(img: array2<Byte>, projX: array<int>, projY: array<int>)
    requires img.Length1 <= projX.Length && img.Length0 <= projY.Length && projX != projY
    modifies projX, projY
    ensures forall x :: 0 <= x < img.Length1 ==> projX[x] == old(projX[x]) + ColumnBlack(Snapshot(img), img.Length1, x, img.Length0)
    ensures forall x :: img.Length1 <= x < projX.Length ==> projX[x] == old(projX[x])
    ensures forall y :: 0 <= y < img.Length0 ==> projY[y] == old(projY[y]) + RowBlack(Snapshot(img)[y], img.Length1)
    ensures forall y :: img.Length0 <= y < projY.Length ==> projY[y] == old(projY[y])
  {
    ghost var g := Snapshot(img);
    var x := 0;
    while x < img.Length1
      invariant 0 <= x <= img.Length1 && projY[..] == old(projY[..])
      invariant forall i :: 0 <= i < x ==> projX[i] == old(projX[i]) + ColumnBlack(g, img.Length1, i, img.Length0)
      invariant forall i :: x <= i < projX.Length ==> projX[i] == old(projX[i])
    {
      var y := 0;
      while y < img.Length0
        invariant 0 <= y <= img.Length0 && projY[..] == old(projY[..])
        invariant projX[x] == old(projX[x]) + ColumnBlack(g, img.Length1, x, y)
        invariant forall i :: 0 <= i < projX.Length && i != x ==> projX[i] == old(projX[i]) + (if i < x then ColumnBlack(g, img.Length1, i, img.Length0) else 0)
      {
        if GetPixel(img, x, y) == BLACK {
          projX[x] := projX[x] + 1;
        }
        y := y + 1;
      }
      x := x + 1;
    }
    ghost var px := projX[..];
    var y := 0;
    while y < img.Length0
      invariant 0 <= y <= img.Length0 && projX[..] == px
      invariant forall j :: 0 <= j < y ==> projY[j] == old(projY[j]) + RowBlack(g[j], img.Length1)
      invariant forall j :: y <= j < projY.Length ==> projY[j] == old(projY[j])
    {
      var x := 0;
      while x < img.Length1
        invariant 0 <= x <= img.Length1 && projX[..] == px
        invariant projY[y] == old(projY[y]) + RowBlack(g[y], x)
        invariant forall j :: 0 <= j < projY.Length && j != y ==> projY[j] == old(projY[j]) + (if j < y then RowBlack(g[j], img.Length1) else 0)
      {
        if GetPixel(img, x, y) == BLACK {
          projY[y] := projY[y] + 1;
        }
        x := x + 1;
      }
      y := y + 1;
    }
  }

  /** `i` is the first index whose value exceeds `t`, or -1 when there is none. */
  ghost predicate IsFirstAbove(s: seq<int>, t: int, i: int)
  {
    || (i == -1 && forall k :: 0 <= k < |s| ==> s[k] <= t)
    || (0 <= i < |s| && s[i] > t && forall k :: 0 <= k < i ==> s[k] <= t)
  }

  /** `i` is the last index whose value exceeds `t`, or -1 when there is none. */
  ghost predicate IsLastAbove(s: seq<int>, t: int, i: int)
  {
    || (i == -1 && forall k :: 0 <= k < |s| ==> s[k] <= t)
    || (0 <= i < |s| && s[i] > t && forall k :: i < k < |s| ==> s[k] <= t)
  }

  /** The first and the last index above a threshold are each determined, and none comes after the other. */
  lemma AboveUnique(s: seq<int>, t: int, i: int, j: int, k: int)
    requires IsFirstAbove(s, t, i) && IsFirstAbove(s, t, j) && IsLastAbove(s, t, k)
    ensures i == j && i <= k && (i == -1 <==> k == -1)
  {
  }

  /**
   * One of the loops of detect_grid: over the first `n` projection values it
   * records the first index above `t` and keeps moving the last one.
   */
  method ScanAbove(p: array<int>, n: int, t: int) returns (first: int, last: int)
    requires 0 <= n <= p.Length
    ensures IsFirstAbove(p[..n], t, first) && IsLastAbove(p[..n], t, last)
  {
    first, last := -1, -1;
    var x := 0;
    while x < n
      invariant 0 <= x <= n
      invariant IsFirstAbove(p[..x], t, first) && IsLastAbove(p[..x], t, last)
    {
      if p[x] > t && first == -1 {
        first := x;
      }
      if p[x] > t {
        last := x;
      }
      x := x + 1;
    }
    assert p[..x] == p[..n];
  }

  /**
   * detect_grid: the columns whose projection exceeds a fifth of the height
   * and the rows whose projection exceeds a fifth of the width bound the
   * grid; `left`/`top` are -1 (and the rectangle one wide/high) when none does.
   */
  method DetectGrid(img: array2<Byte>, projX: array<int>, projY: array<int>) returns (grid: Rect)
    requires img.Length1 <= projX.Length && img.Length0 <= projY.Length
    ensures IsFirstAbove(projX[..img.Length1], img.Length0 / 5, grid.x)
    ensures IsLastAbove(projX[..img.Length1], img.Length0 / 5, grid.x + grid.w - 1)
    ensures IsFirstAbove(projY[..img.Length0], img.Length1 / 5, grid.y)
    ensures IsLastAbove(projY[..img.Length0], img.Length1 / 5, grid.y + grid.h - 1)
  {
    var tresholdX := img.Length0 / 5;
    var tresholdY := img.Length1 / 5;
    var left, right := ScanAbove(projX, img.Length1, tresholdX);
    var top, bottom := ScanAbove(projY, img.Length0, tresholdY);
    grid := Rect(left, top, right - left + 1, bottom - top + 1);
  }

  /** A bounding box that flood_fill grows in place. */
  class BoundingBox {
    var xMin: int
    var yMin: int
    var xMax: int
    var yMax: int

    /** The box of the single pixel (x, y). */
    constructor (x: int, y: int)
      ensures xMin == x && yMin == y && xMax == x && yMax == y
    {
      xMin, yMin, xMax, yMax := x, y, x, y;
    }

    /** The box contains pixel `p`. */
    predicate Contains(p: Point)
      reads this
    {
      xMin <= p.x <= xMax && yMin <= p.y <= yMax
    }

    /** The four updates of flood_fill: the box grows just enough to contain (x, y). */
    method Include(x: int, y: int)
      modifies this
      ensures Contains(Point(x, y))
      ensures xMin == (if x < old(xMin) then x else old(xMin))
      ensures yMin == (if y < old(yMin) then y else old(yMin))
      ensures xMax == (if x > old(xMax) then x else old(xMax))
      ensures yMax == (if y > old(yMax) then y else old(yMax))
    {
      if x < xMin {
        xMin := x;
      }
      if y < yMin {
        yMin := y;
      }
      if x > xMax {
        xMax := x;
      }
      if y > yMax {
        yMax := y;
      }
    }
  }

  /** The pixels whitened so far in `img`, against the surface `g` it started as. */
  ghost predicate Whitened(img: array2<Byte>, g: seq<seq<Byte>>, filled: set<Point>)
    reads img
  {
    && |g| == img.Length0 && Rectangular(g, img.Length1)
    && forall j, i :: 0 <= j < img.Length0 && 0 <= i < img.Length1 ==>
         img[j, i] == if Point(i, j) in filled then WHITE else g[j][i]
  }

  /** The box grew from (x0, y0, x1, y1) just enough to contain the pixels of `filled`. */
  ghost predicate Covers(bb: BoundingBox, filled: set<Point>, x0: int, y0: int, x1: int, y1: int)
    reads bb
  {
    CoversBox(bb.xMin, bb.yMin, bb.xMax, bb.yMax, filled, x0, y0, x1, y1)
  }

  /** The box (xMin, yMin, xMax, yMax) grew from (x0, y0, x1, y1) just enough to contain the pixels of `filled`. */
  ghost predicate CoversBox(xMin: int, yMin: int, xMax: int, yMax: int, filled: set<Point>, x0: int, y0: int, x1: int, y1: int)
  {
    && (forall p :: p in filled ==> xMin <= p.x <= xMax && yMin <= p.y <= yMax)
    && xMin <= x0 && yMin <= y0 && xMax >= x1 && yMax >= y1
    && (xMin == x0 || exists p :: p in filled && p.x == xMin)
    && (yMin == y0 || exists p :: p in filled && p.y == yMin)
    && (xMax == x1 || exists p :: p in filled && p.x == xMax)
    && (yMax == y1 || exists p :: p in filled && p.y == yMax)
  }

  /** Growing the box just enough to contain `q` covers one more pixel. */
  lemma CoversInclude(xMin: int, yMin: int, xMax: int, yMax: int, filled: set<Point>, x0: int, y0: int, x1: int, y1: int, q: Point)
    requires CoversBox(xMin, yMin, xMax, yMax, filled, x0, y0, x1, y1)
    ensures CoversBox(if q.x < xMin then q.x else xMin, if q.y < yMin then q.y else yMin,
                      if q.x > xMax then q.x else xMax, if q.y > yMax then q.y else yMax, filled + {q}, x0, y0, x1, y1)
  {
    var filled' := filled + {q};
    if q.x < xMin {
      assert q in filled' && q.x == q.x;
    } else if xMin != x0 {
      var p :| p in filled && p.x == xMin;
      assert p in filled';
    }
    if q.y < yMin {
      assert q in filled' && q.y == q.y;
    } else if yMin != y0 {
      var p :| p in filled && p.y == yMin;
      assert p in filled';
    }
    if q.x > xMax {
      assert q in filled' && q.x == q.x;
    } else if xMax != x1 {
      var p :| p in filled && p.x == xMax;
      assert p in filled';
    }
    if q.y > yMax {
      assert q in filled' && q.y == q.y;
    } else if yMax != y1 {
      var p :| p in filled && p.y == yMax;
      assert p in filled';
    }
  }

  /** Every whitened pixel, and every BLACK pending one, is in the component of `s`. */
  ghost predicate Reached(g: seq<seq<Byte>>, s: Point, filled: set<Point>, pending: seq<Point>)
  {
    && (forall p :: p in filled ==> Connected(g, s, p))
    && (forall k :: 0 <= k < |pending| && IsBlack(g, pending[k]) ==> Connected(g, s, pending[k]))
  }

  /** The four neighbours of `q`, in the order that makes a stack hand out right, left, down, up. */
  function Neighbours(q: Point): (ns: seq<Point>)
    ensures forall r :: Adjacent(q, r) ==> r in ns
    ensures forall r :: r in ns ==> Adjacent(q, r)
  {
    [Point(q.x, q.y - 1), Point(q.x, q.y + 1), Point(q.x - 1, q.y), Point(q.x + 1, q.y)]
  }

  /** Dropping a pending pixel that is not BLACK, or already whitened, keeps the fill closed. */
  lemma ClosedSkip(g: seq<seq<Byte>>, filled: set<Point>, rest: seq<Point>, q: Point)
    requires Closed(g, filled, rest + [q]) && (IsBlack(g, q) ==> q in filled)
    ensures Closed(g, filled, rest)
  {
    forall p, r | p in filled && Adjacent(p, r) && IsBlack(g, r)
      ensures r in filled || r in rest
    {
      if r !in filled {
        assert r in rest + [q];
      }
    }
  }

  /** Whitening `q` and pushing its neighbours in its place keeps the fill closed. */
  lemma ClosedVisit(g: seq<seq<Byte>>, filled: set<Point>, rest: seq<Point>, q: Point)
    requires Closed(g, filled, rest + [q])
    ensures Closed(g, filled + {q}, rest + Neighbours(q))
  {
    forall p, r | p in filled + {q} && Adjacent(p, r) && IsBlack(g, r)
      ensures r in filled + {q} || r in rest + Neighbours(q)
    {
      if p == q {
        assert r in Neighbours(q);
      } else if r !in filled {
        assert r in rest + [q];
      }
    }
  }

  /** Whitening the BLACK pixel `q` of the component and pushing its neighbours keeps every pixel reached. */
  lemma ReachedVisit(g: seq<seq<Byte>>, s: Point, filled: set<Point>, rest: seq<Point>, q: Point)
    requires Reached(g, s, filled, rest + [q]) && IsBlack(g, q)
    ensures Reached(g, s, filled + {q}, rest + Neighbours(q))
  {
    assert (rest + [q])[|rest|] == q;
    var stack' := rest + Neighbours(q);
    forall k | 0 <= k < |stack'| && IsBlack(g, stack'[k])
      ensures Connected(g, s, stack'[k])
    {
      if k >= |rest| {
        ConnectedStep(g, s, q, stack'[k]);
      } else {
        assert stack'[k] == (rest + [q])[k];
      }
    }
  }

  /**
   * flood_fill: every BLACK pixel 4-connected to (x, y) through BLACK pixels
   * becomes WHITE and every other pixel keeps its value; the box grows just
   * enough to contain the whitened pixels. From a start outside the surface
   * or not BLACK nothing changes. The recursion of the original is run with an
   * explicit stack of pending pixels, pushed so that they are taken in the
   * original's order: right, left, down, up.
   */
  method FloodFill(img: array2<Byte>, x: int, y: int, bb: BoundingBox)
    modifies img, bb
    ensures Whitened(img, old(Snapshot(img)), Component(old(Snapshot(img)), Point(x, y)))
    ensures Covers(bb, Component(old(Snapshot(img)), Point(x, y)), old(bb.xMin), old(bb.yMin), old(bb.xMax), old(bb.yMax))
    ensures !IsBlack(old(Snapshot(img)), Point(x, y)) ==>
              && bb.xMin == old(bb.xMin) && bb.yMin == old(bb.yMin) && bb.xMax == old(bb.xMax) && bb.yMax == old(bb.yMax)
              && forall j, i :: 0 <= j < img.Length0 && 0 <= i < img.Length1 ==> img[j, i] == old(img[j, i])
  {
    ghost var g := Snapshot(img);
    ghost var s := Point(x, y);
    ghost var black := BlackSet(g);
    ghost var filled: set<Point> := {};
    var stack := [Point(x, y)];
    ConnectedSelf(g, s, s);
    assert Spreading(g, s, black, filled, stack);
    while |stack| > 0
      invariant Filling(img, bb, g, s, black, filled, stack, old(bb.xMin), old(bb.yMin), old(bb.xMax), old(bb.yMax))
      decreases |black - filled|, |stack|
    {
      filled, stack := FillStep(img, bb, g, s, black, filled, stack, old(bb.xMin), old(bb.yMin), old(bb.xMax), old(bb.yMax));
    }
    FillEnd(g, s, black, filled);
    if !IsBlack(g, s) {
      assert forall j, i :: 0 <= j < img.Length0 && 0 <= i < img.Length1 ==> img[j, i] == old(img[j, i]);
    }
  }

  /**
   * The state of flood_fill while pixels are pending: the whitened pixels are
   * WHITE in `img` and covered by the box (the part in the heap), and they
   * are BLACK pixels of the component of `s` whose BLACK neighbours are
   * whitened or pending, with `s` itself whitened or pending when BLACK.
   */
  ghost predicate Filling(img: array2<Byte>, bb: BoundingBox, g: seq<seq<Byte>>, s: Point, black: set<Point>,
                          filled: set<Point>, stack: seq<Point>, x0: int, y0: int, x1: int, y1: int)
    reads img, bb
  {
    && Whitened(img, g, filled) && Covers(bb, filled, x0, y0, x1, y1)
    && Spreading(g, s, black, filled, stack)
  }

  /** The part of the flood_fill state that is about pixels only. */
  ghost predicate Spreading(g: seq<seq<Byte>>, s: Point, black: set<Point>, filled: set<Point>, stack: seq<Point>)
  {
    && black == BlackSet(g) && filled <= black
    && Reached(g, s, filled, stack) && Closed(g, filled, stack)
    && (IsBlack(g, s) ==> s in filled || s in stack)
  }

  /** Visiting the BLACK, not yet whitened pixel `q` keeps the pixel part of the state and leaves fewer BLACK pixels to whiten. */
  lemma SpreadingVisit(g: seq<seq<Byte>>, s: Point, black: set<Point>, filled: set<Point>, rest: seq<Point>, q: Point)
    requires Spreading(g, s, black, filled, rest + [q]) && IsBlack(g, q) && q !in filled
    ensures Spreading(g, s, black, filled + {q}, rest + Neighbours(q))
    ensures |black - (filled + {q})| < |black - filled|
  {
    ClosedVisit(g, filled, rest, q);
    ReachedVisit(g, s, filled, rest, q);
    assert black - (filled + {q}) < black - filled by {
      assert q in black - filled;
    }
  }

  /** Dropping a pending pixel that is not BLACK, or already whitened, keeps the pixel part of the state. */
  lemma SpreadingSkip(g: seq<seq<Byte>>, s: Point, black: set<Point>, filled: set<Point>, rest: seq<Point>, q: Point)
    requires Spreading(g, s, black, filled, rest + [q]) && (IsBlack(g, q) ==> q in filled)
    ensures Spreading(g, s, black, filled, rest)
  {
    ClosedSkip(g, filled, rest, q);
    assert forall k :: 0 <= k < |rest| ==> rest[k] == (rest + [q])[k];
  }

  /** One round of flood_fill: the last pending pixel is taken and visited when it is on the surface and BLACK. */
  method FillStep(img: array2<Byte>, bb: BoundingBox, ghost g: seq<seq<Byte>>, ghost s: Point, ghost black: set<Point>,
                  ghost filled: set<Point>, stack: seq<Point>, ghost x0: int, ghost y0: int, ghost x1: int, ghost y1: int)
    returns (ghost filled': set<Point>, stack': seq<Point>)
    requires |stack| > 0 && Filling(img, bb, g, s, black, filled, stack, x0, y0, x1, y1)
    modifies img, bb
    ensures Filling(img, bb, g, s, black, filled', stack', x0, y0, x1, y1)
    ensures |black - filled'| < |black - filled| || (filled' == filled && |stack'| < |stack|)
  {
    var q := stack[|stack| - 1];
    var rest := stack[..|stack| - 1];
    assert stack == rest + [q];
    if 0 <= q.x < img.Length1 && 0 <= q.y < img.Length0 && GetPixel(img, q.x, q.y) == BLACK {
      assert q !in filled && IsBlack(g, q);
      SpreadingVisit(g, s, black, filled, rest, q);
      stack' := Visit(img, bb, g, filled, rest, q, x0, y0, x1, y1);
      filled' := filled + {q};
    } else {
      SpreadingSkip(g, s, black, filled, rest, q);
      filled', stack' := filled, rest;
    }
  }

  /** When nothing is pending, the whitened pixels are exactly the component of `s`. */
  lemma FillEnd(g: seq<seq<Byte>>, s: Point, black: set<Point>, filled: set<Point>)
    requires black == BlackSet(g) && Reached(g, s, filled, []) && Closed(g, filled, [])
    requires IsBlack(g, s) ==> s in filled
    ensures filled == Component(g, s)
    ensures !IsBlack(g, s) ==> filled == {}
  {
    forall p | p in filled
      ensures p in black
    {
      ConnectedSelf(g, s, p);
    }
    if IsBlack(g, s) {
      forall p | Connected(g, s, p)
        ensures p in filled
      {
        ClosedHoldsComponent(g, s, filled, p);
      }
    } else {
      forall p | p in filled
        ensures false
      {
        ConnectedSelf(g, s, p);
      }
    }
  }

  /**
   * One visit of flood_fill to the BLACK pixel `q`: it becomes WHITE, the box
   * grows to contain it, and its four neighbours are pushed.
   */
  method Visit(img: array2<Byte>, bb: BoundingBox, ghost g: seq<seq<Byte>>, ghost filled: set<Point>,
               rest: seq<Point>, q: Point, ghost x0: int, ghost y0: int, ghost x1: int, ghost y1: int)
    returns (stack': seq<Point>)
    requires 0 <= q.x < img.Length1 && 0 <= q.y < img.Length0
    requires Whitened(img, g, filled) && Covers(bb, filled, x0, y0, x1, y1)
    modifies img, bb
    ensures Whitened(img, g, filled + {q}) && Covers(bb, filled + {q}, x0, y0, x1, y1)
    ensures stack' == rest + Neighbours(q)
  {
    SetPixel(img, q.x, q.y, WHITE);
    CoversInclude(bb.xMin, bb.yMin, bb.xMax, bb.yMax, filled, x0, y0, x1, y1, q);
    bb.Include(q.x, q.y);
    stack' := rest + [Point(q.x, q.y - 1), Point(q.x, q.y + 1), Point(q.x - 1, q.y), Point(q.x + 1, q.y)];
  }

  /** The box flood_fill grows from the one-pixel box of its start is the smallest box of what it fills. */
  lemma CoversIsBox(xMin: int, yMin: int, xMax: int, yMax: int, c: set<Point>, s: Point)
    requires CoversBox(xMin, yMin, xMax, yMax, c, s.x, s.y, s.x, s.y) && s in c
    ensures BoxOf(Rect(xMin, yMin, xMax - xMin + 1, yMax - yMin + 1), c)
  {
  }

  /** The state of extract_characters' scan before pixel (x, y): the zone is `g` with the logged components whitened. */
  ghost predicate Extracted(zone: array2<Byte>, g: seq<seq<Byte>>, y: int, x: int, starts: seq<Point>, letters: seq<Rect>)
    reads zone
  {
    Whitened(zone, g, Union(g, starts)) && Logged(g, y, x, starts, letters)
  }

  /**
   * extract_characters: every BLACK pixel met in row-major order starts a
   * flood fill from a one-pixel box, and the box it grows is logged as a
   * character. The ghost `starts` names those pixels: they come in row-major
   * order, each is the first pixel of its 4-connected BLACK component, the
   * components are disjoint and together are every BLACK pixel, and each
   * logged box is the smallest box of its component. Afterwards every pixel
   * that was BLACK is WHITE and every other pixel is unchanged.
   */
  method ExtractCharacters(zone: array2<Byte>) returns (letters: seq<Rect>, ghost starts: seq<Point>)
    modifies zone
    ensures |starts| == |letters|
    ensures forall i, j :: 0 <= i < j < |starts| ==> Before(starts[i], starts[j])
    ensures forall k :: 0 <= k < |starts| ==> FirstOf(starts[k], Component(old(Snapshot(zone)), starts[k]))
    ensures forall k :: 0 <= k < |starts| ==> BoxOf(letters[k], Component(old(Snapshot(zone)), starts[k]))
    ensures forall i, j :: 0 <= i < j < |starts| ==> Component(old(Snapshot(zone)), starts[i]) !! Component(old(Snapshot(zone)), starts[j])
    ensures Union(old(Snapshot(zone)), starts) == BlackSet(old(Snapshot(zone)))
    ensures forall k :: 0 <= k < |letters| ==> letters[k].w > 0 && letters[k].h > 0
    ensures forall j, i :: 0 <= j < zone.Length0 && 0 <= i < zone.Length1 ==>
              zone[j, i] == if old(zone[j, i]) == BLACK then WHITE else old(zone[j, i])
  {
    ghost var g := Snapshot(zone);
    letters, starts := [], [];
    var count := 0;
    var y := 0;
    while y < zone.Length0
      invariant 0 <= y <= zone.Length0 && count == |letters|
      invariant Extracted(zone, g, y, 0, starts, letters)
    {
      count, letters, starts := ExtractRow(zone, g, y, count, letters, starts);
      y := y + 1;
    }
    ScanComplete(g, starts, letters);
    AllWhitened(zone, g);
  }

  /** A zone that is `g` with its BLACK pixels whitened has every BLACK pixel turned WHITE and the others kept. */
  lemma AllWhitened(zone: array2<Byte>, g: seq<seq<Byte>>)
    requires Whitened(zone, g, BlackSet(g))
    ensures forall j, i :: 0 <= j < zone.Length0 && 0 <= i < zone.Length1 ==>
              zone[j, i] == if g[j][i] == BLACK then WHITE else g[j][i]
  {
    forall j, i | 0 <= j < zone.Length0 && 0 <= i < zone.Length1
      ensures zone[j, i] == if g[j][i] == BLACK then WHITE else g[j][i]
    {
      assert Point(i, j) in BlackSet(g) <==> IsBlack(g, Point(i, j));
    }
  }

  /** The surface as it is now is `g` with the whitened pixels WHITE. */
  lemma SnapshotWhiteOn(zone: array2<Byte>, g: seq<seq<Byte>>, filled: set<Point>)
    requires Whitened(zone, g, filled)
    ensures WhiteOn(Snapshot(zone), g, filled)
  {
  }

  /** Whitening `more` on a surface that is `g` with `filled` whitened whitens both on `g`. */
  lemma WhitenedCompose(zone: array2<Byte>, cur: seq<seq<Byte>>, g: seq<seq<Byte>>, filled: set<Point>, more: set<Point>)
    requires WhiteOn(cur, g, filled) && Whitened(zone, cur, more)
    ensures Whitened(zone, g, filled + more)
  {
  }

  /** The inner loop of extract_characters over row `y`. */
  method ExtractRow(zone: array2<Byte>, ghost g: seq<seq<Byte>>, y: int, count: int, letters: seq<Rect>, ghost starts: seq<Point>)
    returns (count': int, letters': seq<Rect>, ghost starts': seq<Point>)
    requires 0 <= y < zone.Length0 && count == |letters|
    requires Extracted(zone, g, y, 0, starts, letters)
    modifies zone
    ensures count' == |letters'| && Extracted(zone, g, y + 1, 0, starts', letters')
  {
    count', letters', starts' := count, letters, starts;
    var x := 0;
    while x < zone.Length1
      invariant 0 <= x <= zone.Length1 && count' == |letters'|
      invariant Extracted(zone, g, y, x, starts', letters')
    {
      count', letters', starts' := ExtractAt(zone, g, y, x, count', letters', starts');
      x := x + 1;
    }
    LoggedNextRow(g, zone.Length1, y, starts', letters');
  }

  /**
   * The body of extract_characters' inner loop at pixel (x, y): a BLACK pixel
   * starts a fill from its one-pixel box, and the box is logged under the
   * next number.
   */
  method ExtractAt(zone: array2<Byte>, ghost g: seq<seq<Byte>>, y: int, x: int, count: int, letters: seq<Rect>, ghost starts: seq<Point>)
    returns (count': int, letters': seq<Rect>, ghost starts': seq<Point>)
    requires 0 <= y < zone.Length0 && 0 <= x < zone.Length1 && count == |letters|
    requires Extracted(zone, g, y, x, starts, letters)
    modifies zone
    ensures count' == |letters'| && Extracted(zone, g, y, x + 1, starts', letters')
  {
    count', letters', starts' := count, letters, starts;
    if GetPixel(zone, x, y) == BLACK {
      var bb := new BoundingBox(x, y);
      var letter := FillFrom(zone, g, Union(g, starts), y, x, bb);
      LoggedAdd(g, y, x, starts, letters, letter);
      UnionAdd(g, starts, Point(x, y));
      letters', starts' := letters + [letter], starts + [Point(x, y)];
      count' := count + 1;
    } else {
      LoggedSkip(g, y, x, starts, letters);
    }
  }

  /**
   * One fill of extract_characters, from the BLACK pixel (x, y) of a zone that
   * is `g` with the closed set `filled` whitened, with the box of that pixel:
   * the fill whitens the pixel's component, which is also its component on
   * `g` and misses `filled`, and the box it grows is that component's
   * smallest box.
   */
  method FillFrom(zone: array2<Byte>, ghost g: seq<seq<Byte>>, ghost filled: set<Point>, y: int, x: int, bb: BoundingBox)
    returns (letter: Rect)
    requires 0 <= y < zone.Length0 && 0 <= x < zone.Length1 && zone[y, x] == BLACK
    requires Whitened(zone, g, filled) && Closed(g, filled, [])
    requires bb.xMin == x && bb.xMax == x && bb.yMin == y && bb.yMax == y
    modifies zone, bb
    ensures Whitened(zone, g, filled + Component(g, Point(x, y)))
    ensures IsBlack(g, Point(x, y)) && Component(g, Point(x, y)) !! filled
    ensures BoxOf(letter, Component(g, Point(x, y)))
  {
    ghost var cur := Snapshot(zone);
    ghost var p := Point(x, y);
    SnapshotWhiteOn(zone, g, filled);
    assert IsBlack(cur, p);
    FreshComponent(g, cur, filled, p);
    FloodFill(zone, x, y, bb);
    WhitenedCompose(zone, cur, g, filled, Component(g, p));
    var xMin, yMin, xMax, yMax := bb.xMin, bb.yMin, bb.xMax, bb.yMax;
    CoversIsBox(xMin, yMin, xMax, yMax, Component(g, p), p);
    letter := Rect(xMin, yMin, xMax - xMin + 1, yMax - yMin + 1);
  }
}
