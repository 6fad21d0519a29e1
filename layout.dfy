/**
 * split_grid_and_list: find a blank vertical band between the grid and the
 * word list and decide which side is which.
 */
module Layout {
  import opened Geometry
  import opened BinaryImage

  /** Width of the blank band tested at each candidate column. */
  const BAND := 5
  /** Width of the windows whose ink is compared on each side of a gap. */
  const WINDOW := 100

  /** A column is light when at most 1 % of the image height is ink (`black_pixels > height * 0.01` rejects it). */
  predicate LightColumn(img: Image, x: int)
  {
    100 * InkInColumn(img, x, 0, img.h) <= img.h
  }

  /** Column `x` opens a gap: every column of x..x+4 that lies on the image is light. */
  predicate IsGap(img: Image, x: int)
  {
    forall c :: x <= c < x + BAND && c < img.w ==> LightColumn(img, c)
  }

  /** The gap test of one candidate column, stopping at the first dark column. */
  method GapAt(img: Image, x: int) returns (gap: bool)
    ensures gap == IsGap(img, x)
  {
    var k := 0;
    while k < BAND && x + k < img.w
      invariant 0 <= k <= BAND
      invariant forall c :: x <= c < x + k ==> LightColumn(img, c)
    {
      var black := CountColumnInk(img, x + k, 0, img.h);
      if 100 * black > img.h {
        assert !LightColumn(img, x + k);
        return false;
      }
      k := k + 1;
    }
    return true;
  }

  /** Ink in the (up to) 100 columns left of `x`. */
  function LeftWindow(img: Image, x: int): nat
  {
    InkInColumns(img, if x - WINDOW > 0 then x - WINDOW else 0, x, 0, img.h)
  }

  /** Ink in the (up to) 100 columns from `x` rightwards, clipped at the image width. */
  function RightWindow(img: Image, x: int): nat
  {
    InkInColumns(img, x, if x + WINDOW < img.w then x + WINDOW else img.w, 0, img.h)
  }

  /**
   * The density contrast of two ink counts: the larger over the smaller when
   * both are positive and they differ, 0 otherwise.
   */
  function Ratio(left: nat, right: nat): real
  {
    if left > right && right > 0 then left as real / right as real
    else if right > left && left > 0 then right as real / left as real
    else 0.0
  }

  /**
   * The contrast is 0 or above 1; it is positive exactly when both counts are
   * positive and differ, and then it times the smaller count is the larger.
   */
  lemma RatioSpec(left: nat, right: nat)
    ensures Ratio(left, right) == 0.0 || Ratio(left, right) > 1.0
    ensures Ratio(left, right) > 0.0 <==> left != right && left > 0 && right > 0
    ensures Ratio(left, right) > 0.0 ==>
              Ratio(left, right) * (if left < right then left else right) as real ==
              (if left < right then right else left) as real
  {
    if left > right && right > 0 {
      DivAbove(left as real, right as real);
    } else if right > left && left > 0 {
      DivAbove(right as real, left as real);
    }
  }

  /** A quotient of a larger positive number by a smaller one exceeds 1 and undoes the division. */
  lemma DivAbove(a: real, b: real)
    requires 0.0 < b < a
    ensures a / b > 1.0 && (a / b) * b == a
  {
  }

  /** The score of a gap at column `x`. */
  function Score(img: Image, x: int): real
  {
    Ratio(LeftWindow(img, x), RightWindow(img, x))
  }

  /**
   * The gaps the scan visits from column `x`: it tests every column while
   * `x < width * 0.9` (10x < 9w), and after each gap it moves on six columns.
   */
  function GapsFrom(img: Image, x: int): seq<int>
    decreases 9 * img.w - 10 * x
  {
    if 10 * x >= 9 * img.w then []
    else if IsGap(img, x) then [x] + GapsFrom(img, x + BAND + 1)
    else GapsFrom(img, x + 1)
  }

  /** The gaps visited by the whole scan, which starts at `(int)(width * 0.1)`. */
  function Gaps(img: Image): seq<int>
  {
    GapsFrom(img, img.w / 10)
  }

  /** Position `k` holds the first gap with the greatest score. */
  ghost predicate IsFirstBest(img: Image, gaps: seq<int>, k: int)
  {
    && 0 <= k < |gaps|
    && (forall j :: 0 <= j < k ==> Score(img, gaps[j]) < Score(img, gaps[k]))
    && (forall j :: 0 <= j < |gaps| ==> Score(img, gaps[j]) <= Score(img, gaps[k]))
  }

  /**
   * Every visited gap is a gap of the central zone, visited gaps are at
   * least six columns apart, and no gap of the zone is missed except one
   * that lies within the five columns skipped after a visited gap.
   */
  lemma {:induction false} GapsFromSound(img: Image, x: int)
    ensures forall k :: 0 <= k < |GapsFrom(img, x)| ==>
              IsGap(img, GapsFrom(img, x)[k]) && x <= GapsFrom(img, x)[k] && 10 * GapsFrom(img, x)[k] < 9 * img.w
    ensures forall k :: 0 <= k < |GapsFrom(img, x)| - 1 ==>
              GapsFrom(img, x)[k] + BAND + 1 <= GapsFrom(img, x)[k + 1]
    decreases 9 * img.w - 10 * x
  {
    if 10 * x >= 9 * img.w {
    } else if IsGap(img, x) {
      GapsFromSound(img, x + BAND + 1);
    } else {
      GapsFromSound(img, x + 1);
    }
  }

  /** A gap of the zone at or after `x` is visited, or lies just after a visited gap. */
  lemma {:induction false} GapsFromComplete(img: Image, x: int, g: int)
    requires x <= g && 10 * g < 9 * img.w && IsGap(img, g)
    ensures g in GapsFrom(img, x) ||
            exists k :: 0 <= k < |GapsFrom(img, x)| && GapsFrom(img, x)[k] < g <= GapsFrom(img, x)[k] + BAND
    decreases 9 * img.w - 10 * x
  {
    var gs := GapsFrom(img, x);
    if x == g {
      assert gs[0] == g;
    } else if IsGap(img, x) {
      if g <= x + BAND {
        assert gs[0] < g <= gs[0] + BAND;
      } else {
        var rest := GapsFrom(img, x + BAND + 1);
        assert gs == [x] + rest;
        GapsFromComplete(img, x + BAND + 1, g);
        if g !in rest {
          var k :| 0 <= k < |rest| && rest[k] < g <= rest[k] + BAND;
          assert gs[k + 1] == rest[k];
        }
      }
    } else {
      GapsFromComplete(img, x + 1, g);
    }
  }

  /**
   * The split column of the scan: -1 when no gap was visited, otherwise the
   * first visited gap whose score is strictly greater than every earlier one
   * and not exceeded by any later one.
   */
  method ChooseSplit(img: Image) returns (best: int)
    ensures best == -1 <==> |Gaps(img)| == 0
    ensures best != -1 ==> exists k :: IsFirstBest(img, Gaps(img), k) && Gaps(img)[k] == best
  {
    best := -1;
    var bestScore: real := -1.0;
    var x := img.w / 10;
    ghost var seen: seq<int> := [];
    ghost var bk := 0;
    while 10 * x < 9 * img.w
      invariant x >= 0
      invariant Gaps(img) == seen + GapsFrom(img, x)
      invariant |seen| == 0 ==> best == -1 && bestScore == -1.0
      invariant |seen| > 0 ==> IsFirstBest(img, seen, bk) && 0 <= best == seen[bk] && bestScore == Score(img, best)
      decreases 9 * img.w - 10 * x
    {
      GapsStep(img, x);
      var gap := GapAt(img, x);
      if gap {
        best, bestScore, bk := ScoreGap(img, x, seen, bk, best, bestScore);
        seen := seen + [x];
        x := x + BAND;
      }
      x := x + 1;
    }
    if best != -1 {
      assert Gaps(img) == seen;
    }
  }

  /** Scores a visited gap and keeps it when it beats every earlier gap. */
  method ScoreGap(img: Image, x: int, ghost seen: seq<int>, ghost bk: int, best: int, bestScore: real)
    returns (best': int, bestScore': real, ghost bk': int)
    requires x >= 0
    requires |seen| == 0 ==> best == -1 && bestScore == -1.0
    requires |seen| > 0 ==> IsFirstBest(img, seen, bk) && 0 <= best == seen[bk] && bestScore == Score(img, best)
    ensures IsFirstBest(img, seen + [x], bk') && 0 <= best' == (seen + [x])[bk'] && bestScore' == Score(img, best')
  {
    var left := CountColumnsInk(img, if x - WINDOW > 0 then x - WINDOW else 0, x, 0, img.h);
    var right := CountColumnsInk(img, x, if x + WINDOW < img.w then x + WINDOW else img.w, 0, img.h);
    var score := Ratio(left, right);
    assert score == Score(img, x);
    FirstBestStep(img, seen, bk, x);
    if score > bestScore {
      best', bestScore', bk' := x, score, |seen|;
    } else {
      best', bestScore', bk' := best, bestScore, bk;
    }
  }

  /** One step of the gap scan from a column inside the zone. */
  lemma GapsStep(img: Image, x: int)
    requires 10 * x < 9 * img.w
    ensures IsGap(img, x) ==> GapsFrom(img, x) == [x] + GapsFrom(img, x + BAND + 1)
    ensures !IsGap(img, x) ==> GapsFrom(img, x) == GapsFrom(img, x + 1)
  {
  }

  /**
   * Appending a gap keeps the first best: the new gap takes over exactly when
   * its score is strictly greater (every score is at least 0).
   */
  lemma FirstBestStep(img: Image, seen: seq<int>, bk: int, x: int)
    requires |seen| > 0 ==> IsFirstBest(img, seen, bk)
    ensures |seen| == 0 ==> IsFirstBest(img, seen + [x], 0)
    ensures |seen| > 0 && Score(img, x) > Score(img, seen[bk]) ==> IsFirstBest(img, seen + [x], |seen|)
    ensures |seen| > 0 && Score(img, x) <= Score(img, seen[bk]) ==> IsFirstBest(img, seen + [x], bk)
  {
    var s := seen + [x];
    if |seen| > 0 {
      assert forall j :: 0 <= j < |seen| ==> s[j] == seen[j];
    }
  }

  /**
   * The side assignment once the split column `s` is known: the grid is the
   * side with strictly more ink when that is the right side, the left side
   * otherwise (so a tie puts the grid on the left).
   */
  function Sides(img: Image, s: int): (r: (Rect, Rect))
    requires 0 <= s <= img.w
    ensures var (grid, list) := r;
      && grid.y == 0 && list.y == 0 && grid.h == img.h && list.h == img.h
      && grid.w >= 0 && list.w >= 0 && grid.w + list.w == img.w
      && ((grid.x == 0 && list.x == s && grid.w == s) || (list.x == 0 && grid.x == s && list.w == s))
      && InkInColumns(img, grid.x, grid.x + grid.w, 0, img.h) >= InkInColumns(img, list.x, list.x + list.w, 0, img.h)
      && (InkInColumns(img, 0, s, 0, img.h) == InkInColumns(img, s, img.w, 0, img.h) ==> grid.x == 0)
  {
    var leftTotal := InkInColumns(img, 0, s, 0, img.h);
    var rightTotal := InkInColumns(img, s, img.w, 0, img.h);
    if rightTotal > leftTotal then (Rect(s, 0, img.w - s, img.h), Rect(0, 0, s, img.h))
    else (Rect(0, 0, s, img.h), Rect(s, 0, img.w - s, img.h))
  }

  /**
   * split_grid_and_list: with no visited gap the whole image is the grid and
   * the list is empty; otherwise the image is cut at the first best-scoring
   * gap and the sides are assigned by total ink.
   */
  method SplitGridAndList(img: Image) returns (grid: Rect, list: Rect)
    ensures |Gaps(img)| == 0 ==> grid == Rect(0, 0, img.w, img.h) && list == EmptyRect
    ensures |Gaps(img)| > 0 ==>
              exists k :: IsFirstBest(img, Gaps(img), k) && 0 <= Gaps(img)[k] <= img.w &&
                          (grid, list) == Sides(img, Gaps(img)[k])
  {
    var s := ChooseSplit(img);
    if s == -1 {
      return Rect(0, 0, img.w, img.h), EmptyRect;
    }
    GapsFromSound(img, img.w / 10);
    var leftTotal := CountColumnsInk(img, 0, s, 0, img.h);
    var rightTotal := CountColumnsInk(img, s, img.w, 0, img.h);
    if rightTotal > leftTotal {
      list := Rect(0, 0, s, img.h);
      grid := Rect(s, 0, img.w - s, img.h);
    } else {
      grid := Rect(0, 0, s, img.h);
      list := Rect(s, 0, img.w - s, img.h);
    }
  }
}
