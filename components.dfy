/**
 * The 4-connected BLACK components of a surface given as rows of values, and
 * the state of the scan that logs one box per component: which pixels a
 * component holds, which pixel of it comes first in row-major order, its
 * smallest box, and how whitening whole components leaves the components of
 * the remaining BLACK pixels as they were.
 */
module Components {
  import opened BinaryImage
  import opened Geometry

  const BLACK: Byte := 0
  const WHITE: Byte := 255

  /** A pixel coordinate. */
  datatype Point = Point(x: int, y: int)

  /** Every row has `w` values. */
  predicate Rectangular(g: seq<seq<Byte>>, w: nat)
  {
    forall y :: 0 <= y < |g| ==> |g[y]| == w
  }

  /** `p` lies on the surface `g`. */
  ghost predicate InImage(g: seq<seq<Byte>>, p: Point)
  {
    0 <= p.y < |g| && 0 <= p.x < |g[p.y]|
  }

  /** `p` is a BLACK pixel of `g`. */
  ghost predicate IsBlack(g: seq<seq<Byte>>, p: Point)
  {
    InImage(g, p) && g[p.y][p.x] == BLACK
  }

  /** `q` is one of the four neighbours of `p`. */
  predicate Adjacent(p: Point, q: Point)
  {
    || (q.x == p.x + 1 && q.y == p.y)
    || (q.x == p.x - 1 && q.y == p.y)
    || (q.x == p.x && q.y == p.y + 1)
    || (q.x == p.x && q.y == p.y - 1)
  }

  /** A walk through BLACK pixels, each a neighbour of the one before. */
  ghost predicate IsPath(g: seq<seq<Byte>>, path: seq<Point>)
  {
    && |path| > 0
    && (forall i :: 0 <= i < |path| ==> IsBlack(g, path[i]))
    && (forall i :: 0 < i < |path| ==> Adjacent(path[i - 1], path[i]))
  }

  /** `p` is in the 4-connected BLACK component of `s`. */
  ghost predicate Connected(g: seq<seq<Byte>>, s: Point, p: Point)
  {
    exists path :: IsPath(g, path) && path[0] == s && path[|path| - 1] == p
  }

  /** A BLACK pixel is in its own component, and only BLACK pixels are in components. */
  lemma ConnectedSelf(g: seq<seq<Byte>>, s: Point, p: Point)
    ensures Connected(g, s, s) <==> IsBlack(g, s)
    ensures Connected(g, s, p) ==> IsBlack(g, s) && IsBlack(g, p)
  {
    if IsBlack(g, s) {
      assert IsPath(g, [s]);
    }
  }

  /** A BLACK neighbour of a pixel of the component is in the component. */
  lemma ConnectedStep(g: seq<seq<Byte>>, s: Point, p: Point, q: Point)
    requires Connected(g, s, p) && Adjacent(p, q) && IsBlack(g, q)
    ensures Connected(g, s, q)
  {
    var path :| IsPath(g, path) && path[0] == s && path[|path| - 1] == p;
    assert IsPath(g, path + [q]);
    assert (path + [q])[0] == s;
  }

  /** A set that holds the start of a walk and every BLACK neighbour of its members holds the whole walk. */
  lemma {:induction false} PathInside(g: seq<seq<Byte>>, path: seq<Point>, filled: set<Point>)
    requires IsPath(g, path) && path[0] in filled
    requires forall p, q :: p in filled && Adjacent(p, q) && IsBlack(g, q) ==> q in filled
    ensures path[|path| - 1] in filled
  {
    if |path| > 1 {
      var prefix := path[..|path| - 1];
      assert IsPath(g, prefix);
      PathInside(g, prefix, filled);
      assert Adjacent(prefix[|prefix| - 1], path[|path| - 1]);
    }
  }

  /** Such a set holds the start's whole component. */
  lemma ClosedHoldsComponent(g: seq<seq<Byte>>, s: Point, filled: set<Point>, p: Point)
    requires s in filled
    requires forall p, q :: p in filled && Adjacent(p, q) && IsBlack(g, q) ==> q in filled
    requires Connected(g, s, p)
    ensures p in filled
  {
    var path :| IsPath(g, path) && path[0] == s && path[|path| - 1] == p;
    PathInside(g, path, filled);
  }

  /** The BLACK pixels of a surface. */
  ghost function BlackSet(g: seq<seq<Byte>>): (b: set<Point>)
    ensures forall p :: p in b <==> IsBlack(g, p)
  {
    var b := set y, x | 0 <= y < |g| && 0 <= x < |g[y]| && g[y][x] == BLACK :: Point(x, y);
    assert forall p :: IsBlack(g, p) ==> p in b by {
      forall p | IsBlack(g, p)
        ensures p in b
      {
        assert 0 <= p.y < |g| && 0 <= p.x < |g[p.y]| && g[p.y][p.x] == BLACK;
      }
    }
    b
  }

  /** The 4-connected BLACK component of `s`: empty when `s` is not BLACK. */
  ghost function Component(g: seq<seq<Byte>>, s: Point): set<Point>
  {
    set p | p in BlackSet(g) && Connected(g, s, p)
  }

  /** Every BLACK neighbour of a whitened pixel is whitened or still pending. */
  ghost predicate Closed(g: seq<seq<Byte>>, filled: set<Point>, pending: seq<Point>)
  {
    forall p, r :: p in filled && Adjacent(p, r) && IsBlack(g, r) ==> r in filled || r in pending
  }

  /** `p` comes before `q` in row-major order. */
  predicate Before(p: Point, q: Point)
  {
    p.y < q.y || (p.y == q.y && p.x < q.x)
  }

  /** `s` is the pixel of `c` met first in row-major order. */
  ghost predicate FirstOf(s: Point, c: set<Point>)
  {
    s in c && forall p :: p in c && p != s ==> Before(s, p)
  }

  /** `r` is the smallest rectangle that contains every pixel of `c`. */
  ghost predicate BoxOf(r: Rect, c: set<Point>)
  {
    && (forall p :: p in c ==> r.x <= p.x < r.x + r.w && r.y <= p.y < r.y + r.h)
    && (exists p :: p in c && p.x == r.x) && (exists p :: p in c && p.x == r.x + r.w - 1)
    && (exists p :: p in c && p.y == r.y) && (exists p :: p in c && p.y == r.y + r.h - 1)
  }

  /** The smallest box of a set of pixels is not empty. */
  lemma BoxNonEmpty(r: Rect, c: set<Point>)
    requires BoxOf(r, c)
    ensures r.w > 0 && r.h > 0
  {
    var p :| p in c && p.x == r.x;
    var q :| q in c && q.y == r.y;
  }

  /** The components of the pixels of `starts`, together. */
  ghost function Union(g: seq<seq<Byte>>, starts: seq<Point>): set<Point>
    decreases |starts|
  {
    if |starts| == 0 then {}
    else Union(g, starts[..|starts| - 1]) + Component(g, starts[|starts| - 1])
  }

  /** The components together are BLACK pixels. */
  lemma {:induction false} UnionBlack(g: seq<seq<Byte>>, starts: seq<Point>)
    ensures Union(g, starts) <= BlackSet(g)
    decreases |starts|
  {
    if |starts| > 0 {
      UnionBlack(g, starts[..|starts| - 1]);
    }
  }

  /** Each component is part of the union. */
  lemma {:induction false} UnionHolds(g: seq<seq<Byte>>, starts: seq<Point>, k: int)
    requires 0 <= k < |starts|
    ensures Component(g, starts[k]) <= Union(g, starts)
    decreases |starts|
  {
    if k < |starts| - 1 {
      var prefix := starts[..|starts| - 1];
      assert prefix[k] == starts[k];
      UnionHolds(g, prefix, k);
    }
  }

  /** `cur` is the surface `g` with exactly the pixels of `filled` turned WHITE. */
  ghost predicate WhiteOn(cur: seq<seq<Byte>>, g: seq<seq<Byte>>, filled: set<Point>)
  {
    && |cur| == |g| && (forall j :: 0 <= j < |g| ==> |cur[j]| == |g[j]|)
    && forall j, i :: 0 <= j < |g| && 0 <= i < |g[j]| ==> cur[j][i] == if Point(i, j) in filled then WHITE else g[j][i]
  }

  /** A pixel is BLACK on the whitened surface exactly when it was BLACK and is not whitened. */
  lemma BlackOn(cur: seq<seq<Byte>>, g: seq<seq<Byte>>, filled: set<Point>, p: Point)
    requires WhiteOn(cur, g, filled)
    ensures IsBlack(cur, p) <==> IsBlack(g, p) && p !in filled
  {
  }

  /** A walk through BLACK pixels that starts outside a set closed under BLACK neighbours never enters it. */
  lemma {:induction false} PathAvoids(g: seq<seq<Byte>>, filled: set<Point>, path: seq<Point>)
    requires IsPath(g, path) && path[0] !in filled && Closed(g, filled, [])
    ensures forall i :: 0 <= i < |path| ==> path[i] !in filled
  {
    if |path| > 1 {
      var prefix := path[..|path| - 1];
      assert IsPath(g, prefix);
      PathAvoids(g, filled, prefix);
      var last := path[|path| - 1];
      assert Adjacent(last, prefix[|prefix| - 1]);
      assert forall i :: 0 <= i < |prefix| ==> path[i] == prefix[i];
    }
  }

  /**
   * Whitening a set closed under BLACK neighbours leaves the component of
   * every pixel still BLACK as it was.
   */
  lemma ComponentKept(g: seq<seq<Byte>>, cur: seq<seq<Byte>>, filled: set<Point>, s: Point)
    requires WhiteOn(cur, g, filled) && Closed(g, filled, []) && IsBlack(cur, s)
    ensures Component(cur, s) == Component(g, s)
  {
    forall p | p in Component(cur, s)
      ensures p in Component(g, s)
    {
      var path :| IsPath(cur, path) && path[0] == s && path[|path| - 1] == p;
      forall i | 0 <= i < |path|
        ensures IsBlack(g, path[i])
      {
        BlackOn(cur, g, filled, path[i]);
      }
      assert IsPath(g, path);
    }
    forall p | p in Component(g, s)
      ensures p in Component(cur, s)
    {
      var path :| IsPath(g, path) && path[0] == s && path[|path| - 1] == p;
      BlackOn(cur, g, filled, s);
      PathAvoids(g, filled, path);
      forall i | 0 <= i < |path|
        ensures IsBlack(cur, path[i])
      {
        BlackOn(cur, g, filled, path[i]);
      }
      assert IsPath(cur, path);
    }
  }

  /** A component is closed under BLACK neighbours. */
  lemma ComponentClosed(g: seq<seq<Byte>>, s: Point)
    ensures Closed(g, Component(g, s), [])
  {
    forall p, r | p in Component(g, s) && Adjacent(p, r) && IsBlack(g, r)
      ensures r in Component(g, s)
    {
      ConnectedStep(g, s, p, r);
    }
  }

  /** The starts come in row-major order. */
  ghost predicate RowMajor(starts: seq<Point>)
  {
    forall i, j :: 0 <= i < j < |starts| ==> Before(starts[i], starts[j])
  }

  /** `s` is the first pixel of its component and `r` is the smallest box of that component. */
  ghost predicate Entry(g: seq<seq<Byte>>, s: Point, r: Rect)
  {
    FirstOf(s, Component(g, s)) && BoxOf(r, Component(g, s))
  }

  /** The components of the starts are pairwise disjoint. */
  ghost predicate Disjoint(g: seq<seq<Byte>>, starts: seq<Point>)
  {
    forall i, j :: 0 <= i < j < |starts| ==> Component(g, starts[i]) !! Component(g, starts[j])
  }

  /**
   * The logged part of extract_characters' state: each logged box is the
   * smallest box of the component of its start, the starts come in row-major
   * order and each is the first pixel of its component, the components are
   * disjoint, and together they are closed under BLACK neighbours.
   */
  ghost predicate LogShape(g: seq<seq<Byte>>, starts: seq<Point>, letters: seq<Rect>)
  {
    && |starts| == |letters| && RowMajor(starts) && Disjoint(g, starts)
    && (forall k :: 0 <= k < |starts| ==> Entry(g, starts[k], letters[k]))
    && Closed(g, Union(g, starts), [])
  }

  /** Every start comes before (x, y), and every BLACK pixel before (x, y) is in a logged component. */
  ghost predicate ScannedTo(g: seq<seq<Byte>>, y: int, x: int, starts: seq<Point>)
  {
    && (forall k :: 0 <= k < |starts| ==> Before(starts[k], Point(x, y)))
    && (forall p :: IsBlack(g, p) && Before(p, Point(x, y)) ==> p in Union(g, starts))
  }

  /** The pixel part of extract_characters' state before pixel (x, y). */
  ghost predicate Logged(g: seq<seq<Byte>>, y: int, x: int, starts: seq<Point>, letters: seq<Rect>)
  {
    LogShape(g, starts, letters) && ScannedTo(g, y, x, starts)
  }

  /** Passing a pixel that is no longer BLACK keeps the scan's state. */
  lemma LoggedSkip(g: seq<seq<Byte>>, y: int, x: int, starts: seq<Point>, letters: seq<Rect>)
    requires Logged(g, y, x, starts, letters)
    requires IsBlack(g, Point(x, y)) ==> Point(x, y) in Union(g, starts)
    ensures Logged(g, y, x + 1, starts, letters)
  {
    forall k | 0 <= k < |starts|
      ensures Before(starts[k], Point(x + 1, y))
    {
      assert Before(starts[k], Point(x, y));
    }
    forall p | IsBlack(g, p) && Before(p, Point(x + 1, y))
      ensures p in Union(g, starts)
    {
      if p != Point(x, y) {
        assert Before(p, Point(x, y));
      }
    }
  }

  /** Passing the end of a row is starting the next one. */
  lemma LoggedNextRow(g: seq<seq<Byte>>, w: nat, y: int, starts: seq<Point>, letters: seq<Rect>)
    requires Rectangular(g, w) && Logged(g, y, w, starts, letters)
    ensures Logged(g, y + 1, 0, starts, letters)
  {
    forall k | 0 <= k < |starts|
      ensures Before(starts[k], Point(0, y + 1))
    {
      assert starts[k] in Component(g, starts[k]);
    }
  }

  /** Logging the component of a BLACK pixel after the logged starts and outside their components keeps the log's shape. */
  lemma LogShapeAdd(g: seq<seq<Byte>>, starts: seq<Point>, letters: seq<Rect>, p: Point, letter: Rect)
    requires LogShape(g, starts, letters) && ScannedTo(g, p.y, p.x, starts) && IsBlack(g, p)
    requires Component(g, p) !! Union(g, starts) && BoxOf(letter, Component(g, p))
    ensures LogShape(g, starts + [p], letters + [letter])
  {
    RowMajorAdd(starts, p);
    DisjointAdd(g, starts, p);
    FirstAdd(g, starts, p);
    EntriesAdd(g, starts, letters, p, letter);
    ClosedAdd(g, starts, p);
  }

  /** One more start and its box keep every entry. */
  lemma EntriesAdd(g: seq<seq<Byte>>, starts: seq<Point>, letters: seq<Rect>, p: Point, letter: Rect)
    requires |starts| == |letters| && forall k :: 0 <= k < |starts| ==> Entry(g, starts[k], letters[k])
    requires Entry(g, p, letter)
    ensures forall k :: 0 <= k < |starts| + 1 ==> Entry(g, (starts + [p])[k], (letters + [letter])[k])
  {
    forall k | 0 <= k < |starts| + 1
      ensures Entry(g, (starts + [p])[k], (letters + [letter])[k])
    {
      if k < |starts| {
        assert (starts + [p])[k] == starts[k] && (letters + [letter])[k] == letters[k];
      }
    }
  }

  /** Adding a component keeps the union closed under BLACK neighbours. */
  lemma ClosedAdd(g: seq<seq<Byte>>, starts: seq<Point>, p: Point)
    requires Closed(g, Union(g, starts), [])
    ensures Closed(g, Union(g, starts + [p]), [])
  {
    var starts' := starts + [p];
    assert starts'[..|starts|] == starts;
    assert Union(g, starts') == Union(g, starts) + Component(g, p);
    ComponentClosed(g, p);
    ClosedUnion(g, Union(g, starts), Component(g, p));
  }

  /** A start after every logged one keeps them in order. */
  lemma RowMajorAdd(starts: seq<Point>, p: Point)
    requires RowMajor(starts) && forall k :: 0 <= k < |starts| ==> Before(starts[k], p)
    ensures RowMajor(starts + [p])
  {
    var starts' := starts + [p];
    forall i, j | 0 <= i < j < |starts'|
      ensures Before(starts'[i], starts'[j])
    {
      assert starts'[i] == starts[i];
      if j < |starts| {
        assert starts'[j] == starts[j];
      }
    }
  }

  /** A component outside the union of the logged ones is disjoint from each of them. */
  lemma DisjointAdd(g: seq<seq<Byte>>, starts: seq<Point>, p: Point)
    requires Disjoint(g, starts) && Component(g, p) !! Union(g, starts)
    ensures Disjoint(g, starts + [p])
  {
    var starts' := starts + [p];
    forall i, j | 0 <= i < j < |starts'|
      ensures Component(g, starts'[i]) !! Component(g, starts'[j])
    {
      assert starts'[i] == starts[i];
      if j < |starts| {
        assert starts'[j] == starts[j];
      } else {
        UnionHolds(g, starts, i);
      }
    }
  }

  /** A BLACK pixel whose component misses every BLACK pixel before it is that component's first pixel. */
  lemma FirstAdd(g: seq<seq<Byte>>, starts: seq<Point>, p: Point)
    requires ScannedTo(g, p.y, p.x, starts) && IsBlack(g, p) && Component(g, p) !! Union(g, starts)
    ensures FirstOf(p, Component(g, p))
  {
    ConnectedSelf(g, p, p);
    forall q | q in Component(g, p) && q != p
      ensures Before(p, q)
    {
      assert q !in Union(g, starts);
    }
  }

  /** Two sets closed under BLACK neighbours are closed together. */
  lemma ClosedUnion(g: seq<seq<Byte>>, a: set<Point>, b: set<Point>)
    requires Closed(g, a, []) && Closed(g, b, [])
    ensures Closed(g, a + b, [])
  {
  }

  /** Logging the component of the BLACK pixel (x, y) moves the scan past it. */
  lemma ScannedToAdd(g: seq<seq<Byte>>, y: int, x: int, starts: seq<Point>)
    requires ScannedTo(g, y, x, starts) && IsBlack(g, Point(x, y))
    ensures ScannedTo(g, y, x + 1, starts + [Point(x, y)])
  {
    var p := Point(x, y);
    var starts' := starts + [p];
    assert starts'[..|starts|] == starts;
    assert Union(g, starts') == Union(g, starts) + Component(g, p);
    ConnectedSelf(g, p, p);
    forall k | 0 <= k < |starts'|
      ensures Before(starts'[k], Point(x + 1, y))
    {
      if k < |starts| {
        assert starts'[k] == starts[k];
        assert Before(starts[k], p);
      }
    }
    forall q | IsBlack(g, q) && Before(q, Point(x + 1, y))
      ensures q in Union(g, starts')
    {
      if q != p {
        assert Before(q, p);
      }
    }
  }

  /** Filling from the BLACK pixel (x, y), outside every logged component, logs its component next. */
  lemma LoggedAdd(g: seq<seq<Byte>>, y: int, x: int, starts: seq<Point>, letters: seq<Rect>, letter: Rect)
    requires Logged(g, y, x, starts, letters) && IsBlack(g, Point(x, y))
    requires Component(g, Point(x, y)) !! Union(g, starts) && BoxOf(letter, Component(g, Point(x, y)))
    ensures Logged(g, y, x + 1, starts + [Point(x, y)], letters + [letter])
  {
    LogShapeAdd(g, starts, letters, Point(x, y), letter);
    ScannedToAdd(g, y, x, starts);
  }

  /** At the end of the scan the logged components are every BLACK pixel, and every logged box is non-empty. */
  lemma ScanComplete(g: seq<seq<Byte>>, starts: seq<Point>, letters: seq<Rect>)
    requires Logged(g, |g|, 0, starts, letters)
    ensures Union(g, starts) == BlackSet(g)
    ensures forall k :: 0 <= k < |letters| ==> letters[k].w > 0 && letters[k].h > 0
  {
    UnionBlack(g, starts);
    forall p | p in BlackSet(g)
      ensures p in Union(g, starts)
    {
      assert Before(p, Point(0, |g|));
    }
    forall k | 0 <= k < |letters|
      ensures letters[k].w > 0 && letters[k].h > 0
    {
      assert Entry(g, starts[k], letters[k]);
      BoxNonEmpty(letters[k], Component(g, starts[k]));
    }
  }

  /** A component of the whitened surface misses every whitened pixel. */
  lemma ComponentOutside(g: seq<seq<Byte>>, cur: seq<seq<Byte>>, filled: set<Point>, s: Point)
    requires WhiteOn(cur, g, filled)
    ensures Component(cur, s) !! filled
  {
    forall q | q in Component(cur, s)
      ensures q !in filled
    {
      BlackOn(cur, g, filled, q);
    }
  }

  /** One more start adds its component to the union. */
  lemma UnionAdd(g: seq<seq<Byte>>, starts: seq<Point>, p: Point)
    ensures Union(g, starts + [p]) == Union(g, starts) + Component(g, p)
  {
    assert (starts + [p])[..|starts|] == starts;
  }

  /**
   * The component of a pixel still BLACK after whitening a closed set is its
   * component on the original surface, holds the pixel and misses the
   * whitened set.
   */
  lemma FreshComponent(g: seq<seq<Byte>>, cur: seq<seq<Byte>>, filled: set<Point>, s: Point)
    requires WhiteOn(cur, g, filled) && Closed(g, filled, []) && IsBlack(cur, s)
    ensures Component(cur, s) == Component(g, s)
    ensures s in Component(g, s) && IsBlack(g, s)
    ensures Component(g, s) !! filled
  {
    ComponentKept(g, cur, filled, s);
    ComponentOutside(g, cur, filled, s);
    BlackOn(cur, g, filled, s);
    ConnectedSelf(g, s, s);
  }
}
