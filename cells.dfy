/**
 * extract_cells and is_line_solid: find the ruled lines of the grid from ink
 * projections and cut the cells between adjacent lines.
 */
module GridCells {
  import opened Geometry
  import opened BinaryImage

  /** Capacity of the `h_lines` / `v_lines` buffers. */
  const MAX_LINES := 100
  /** A line closer than this (or exactly this far) to the previous one is a duplicate. */
  const MIN_LINE_GAP := 15
  /** Columns left of this are margin noise and never start a vertical line. */
  const LEFT_MARGIN := 5
  /** Inset that keeps the ruling out of a cell. */
  const OFFSET := 2
  /** Smallest accepted cell width and height. */
  const MIN_CELL := 15

  /** Some `n` consecutive flags of `f` are all set. */
  ghost predicate HasRun(f: seq<bool>, n: nat)
  {
    exists i, j :: 0 <= i && j == i + n && j <= |f| && AllSet(f, i, j)
  }

  /** Length scanned by is_line_solid: the area's width for a row, its height for a column. */
  function LineLength(area: Rect, horizontal: bool): int
  {
    if horizontal then area.w else area.h
  }

  /** The ink flags met along row `pos` (horizontal) or column `pos` of the area. */
  function LineSample(img: Image, pos: int, horizontal: bool, area: Rect): (s: seq<bool>)
    requires LineLength(area, horizontal) >= 0
    ensures |s| == LineLength(area, horizontal)
  {
    seq(LineLength(area, horizontal), k =>
      if horizontal then IsInk(img, area.x + k, area.y + pos) else IsInk(img, area.x + pos, area.y + k))
  }

  /**
   * is_line_solid: true exactly when the line holds a run of consecutive ink
   * pixels longer than an eighth of its length (`max_run > limit / 8`).
   */
  method IsLineSolid(img: Image, pos: int, horizontal: bool, area: Rect) returns (solid: bool)
    requires LineLength(area, horizontal) >= 0
    ensures solid <==> HasRun(LineSample(img, pos, horizontal, area), LineLength(area, horizontal) / 8 + 1)
  {
    var limit := LineLength(area, horizontal);
    ghost var s := LineSample(img, pos, horizontal, area);
    var maxRun := 0;
    var currentRun := 0;
    ghost var maxAt := 0;
    var k := 0;
    while k < limit
      invariant 0 <= k <= limit
      invariant 0 <= currentRun <= k && AllSet(s, k - currentRun, k)
      invariant k - currentRun == 0 || !s[k - currentRun - 1]
      invariant 0 <= maxAt && maxAt + maxRun <= k && AllSet(s, maxAt, maxAt + maxRun)
      invariant forall i, j :: 0 <= i <= j <= k && AllSet(s, i, j) ==>
                  j - i <= maxRun || j - i <= currentRun
    {
      var x := if horizontal then area.x + k else area.x + pos;
      var y := if horizontal then area.y + pos else area.y + k;
      if GetPixelBinary(img, x, y) == 0 {
        assert s[k];
        ghost var next := k + 1;
        forall i | 0 <= i <= next && AllSet(s, i, next)
          ensures next - i <= currentRun + 1
        {
          if k - currentRun > 0 {
            assert !s[k - currentRun - 1];
          }
        }
        currentRun := currentRun + 1;
      } else {
        assert !s[k];
        if currentRun > maxRun {
          maxRun := currentRun;
          maxAt := k - currentRun;
        }
        currentRun := 0;
      }
      k := k + 1;
    }
    if currentRun > maxRun {
      maxRun := currentRun;
      maxAt := k - currentRun;
    }
    solid := maxRun > limit / 8;
    if solid {
      assert AllSet(s, maxAt, maxAt + limit / 8 + 1);
    }
  }

  /** Ink pixels of row `y` of the area (h_proj[y]). */
  function RowProjection(img: Image, area: Rect, y: int): nat
    requires area.w >= 0
  {
    InkInRow(img, area.y + y, area.x, area.w)
  }

  /** Ink pixels of column `x` of the area (v_proj[x]). */
  function ColumnProjection(img: Image, area: Rect, x: int): nat
    requires area.h >= 0
  {
    InkInColumn(img, area.x + x, area.y, area.h)
  }

  /**
   * The two histograms of extract_cells, filled in one row-major pass: each
   * ink pixel of the area increments its row count and its column count.
   */
  method Projections(img: Image, area: Rect) returns (hProj: seq<nat>, vProj: seq<nat>)
    requires area.w >= 0 && area.h >= 0
    ensures |hProj| == area.h && |vProj| == area.w
    ensures forall y :: 0 <= y < area.h ==> hProj[y] == RowProjection(img, area, y)
    ensures forall x :: 0 <= x < area.w ==> vProj[x] == ColumnProjection(img, area, x)
  {
    var hp := new nat[area.h](_ => 0);
    var vp := new nat[area.w](_ => 0);
    var y := 0;
    while y < area.h
      invariant 0 <= y <= area.h
      invariant forall r :: 0 <= r < y ==> hp[r] == RowProjection(img, area, r)
      invariant forall r :: y <= r < area.h ==> hp[r] == 0
      invariant forall c :: 0 <= c < area.w ==> vp[c] == InkInColumn(img, area.x + c, area.y, y)
    {
      var x := 0;
      while x < area.w
        invariant 0 <= x <= area.w
        invariant forall r :: 0 <= r < y ==> hp[r] == RowProjection(img, area, r)
        invariant forall r :: y < r < area.h ==> hp[r] == 0
        invariant hp[y] == InkInRow(img, area.y + y, area.x, x)
        invariant forall c :: 0 <= c < x ==> vp[c] == InkInColumn(img, area.x + c, area.y, y + 1)
        invariant forall c :: x <= c < area.w ==> vp[c] == InkInColumn(img, area.x + c, area.y, y)
      {
        if GetPixelBinary(img, area.x + x, area.y + y) == 0 {
          hp[y] := hp[y] + 1;
          vp[x] := vp[x] + 1;
        }
        x := x + 1;
      }
      y := y + 1;
    }
    hProj, vProj := hp[..], vp[..];
  }

  /**
   * A row of the area is a horizontal-line candidate when more than a tenth
   * of its width is ink (`grid_rect.w * 0.10`, truncated) and it is solid.
   */
  ghost function HorizontalFlags(img: Image, area: Rect): (f: seq<bool>)
    requires area.w >= 0 && area.h >= 0
    ensures |f| == area.h
  {
    seq(area.h, y =>
      RowProjection(img, area, y) > area.w / 10 && HasRun(LineSample(img, y, true, area), area.w / 8 + 1))
  }

  /** Column candidates: the same test on columns, with the five-column left margin skipped. */
  ghost function VerticalFlags(img: Image, area: Rect): (f: seq<bool>)
    requires area.w >= 0 && area.h >= 0
    ensures |f| == area.w
  {
    seq(area.w, x =>
      LEFT_MARGIN <= x && ColumnProjection(img, area, x) > area.h / 10 &&
      HasRun(LineSample(img, x, false, area), area.h / 8 + 1))
  }

  /** Evaluates the candidate test of every row (or column) of the area, in order. */
  method CandidateFlags(img: Image, area: Rect, proj: seq<nat>, horizontal: bool) returns (flags: seq<bool>)
    requires area.w >= 0 && area.h >= 0
    requires |proj| == (if horizontal then area.h else area.w)
    requires forall p :: 0 <= p < |proj| ==>
               proj[p] == if horizontal then RowProjection(img, area, p) else ColumnProjection(img, area, p)
    ensures horizontal ==> flags == HorizontalFlags(img, area)
    ensures !horizontal ==> flags == VerticalFlags(img, area)
  {
    var thresh := if horizontal then area.w / 10 else area.h / 10;
    flags := [];
    var p := 0;
    while p < |proj|
      invariant 0 <= p <= |proj| && |flags| == p
      invariant horizontal ==> flags == HorizontalFlags(img, area)[..p]
      invariant !horizontal ==> flags == VerticalFlags(img, area)[..p]
    {
      var candidate := false;
      if horizontal || LEFT_MARGIN <= p {
        if proj[p] > thresh {
          candidate := IsLineSolid(img, p, horizontal, area);
        }
      }
      flags := flags + [candidate];
      p := p + 1;
    }
  }

  /** The position kept for a run of candidates: `start + (last - start) / 2`. */
  function Center(r: Run): int
  {
    r.start + (r.end - 1 - r.start) / 2
  }

  /** Appends a line position unless the buffer is full or it is within 15 px of the last one. */
  function Keep(lines: seq<int>, c: int): seq<int>
  {
    if |lines| < MAX_LINES && (|lines| == 0 || c - lines[|lines| - 1] > MIN_LINE_GAP) then lines + [c]
    else lines
  }

  /** The line positions kept from a sequence of runs, first to last. */
  function Dedup(runs: seq<Run>): seq<int>
  {
    if |runs| == 0 then [] else Keep(Dedup(runs[..|runs| - 1]), Center(runs[|runs| - 1]))
  }

  /**
   * Merges runs of candidate rows (or columns) into line positions, as the
   * scans of extract_cells do: a run ends at the first non-candidate or at
   * the end of the area, and its center is kept by `Keep`.
   */
  method MergeLines(flags: seq<bool>) returns (lines: seq<int>)
    ensures lines == Dedup(Runs(flags))
  {
    var buf := new int[MAX_LINES];
    var count := 0;
    var start := -1;
    ghost var done: seq<Run> := [];
    ScanBegin(flags);
    var p := 0;
    while p < |flags|
      invariant start >= -1 && Scanned(flags, done, start >= 0, start, p)
      invariant 0 <= count <= MAX_LINES && buf[..count] == Dedup(done)
    {
      count, start, done := MergeStep(buf, flags, p, count, start, done);
      p := p + 1;
    }
    count := MergeEnd(buf, flags, count, start, done);
    lines := buf[..count];
  }

  /** One flag of the merge scan: a candidate opens or extends a run, a non-candidate ends it. */
  method MergeStep(buf: array<int>, flags: seq<bool>, p: int, count: int, start: int, ghost done: seq<Run>)
    returns (count': int, start': int, ghost done': seq<Run>)
    requires buf.Length == MAX_LINES && 0 <= p < |flags|
    requires start >= -1 && Scanned(flags, done, start >= 0, start, p)
    requires 0 <= count <= MAX_LINES && buf[..count] == Dedup(done)
    modifies buf
    ensures start' >= -1 && Scanned(flags, done', start' >= 0, start', p + 1)
    ensures 0 <= count' <= MAX_LINES && buf[..count'] == Dedup(done')
  {
    count', start', done' := count, start, done;
    if flags[p] {
      ScanSet(flags, done, start >= 0, start, p);
      if start == -1 {
        start' := p;
      }
    } else {
      ScanUnset(flags, done, start >= 0, start, p);
      if start != -1 {
        var center := start + (p - 1 - start) / 2;
        DedupSnoc(done, Run(start, p));
        count' := Push(buf, count, center);
        done', start' := done + [Run(start, p)], -1;
      }
    }
  }

  /** The end of the merge scan: a run still open at the end of the area is merged too. */
  method MergeEnd(buf: array<int>, flags: seq<bool>, count: int, start: int, ghost done: seq<Run>) returns (count': int)
    requires buf.Length == MAX_LINES
    requires start >= -1 && Scanned(flags, done, start >= 0, start, |flags|)
    requires 0 <= count <= MAX_LINES && buf[..count] == Dedup(done)
    modifies buf
    ensures 0 <= count' <= MAX_LINES && buf[..count'] == Dedup(Runs(flags))
  {
    ScanEnd(flags, done, start >= 0, start);
    count' := count;
    if start != -1 {
      var center := start + (|flags| - 1 - start) / 2;
      assert Runs(flags) == done + [Run(start, |flags|)];
      DedupSnoc(done, Run(start, |flags|));
      count' := Push(buf, count, center);
    } else {
      assert Runs(flags) == done + [];
      assert Runs(flags) == done;
    }
  }

  /** Stores `center` in the line buffer when `Keep` accepts it (`lines[count++] = center`). */
  method Push(buf: array<int>, count: int, center: int) returns (count': int)
    requires buf.Length == MAX_LINES && 0 <= count <= MAX_LINES
    modifies buf
    ensures 0 <= count' <= MAX_LINES && buf[..count'] == Keep(old(buf[..count]), center)
  {
    count' := count;
    if count == 0 || center - buf[count - 1] > MIN_LINE_GAP {
      if count < MAX_LINES {
        buf[count] := center;
        count' := count + 1;
      }
    }
  }

  /** Adding one run to the scan adds at most its center to the kept lines. */
  lemma DedupSnoc(runs: seq<Run>, r: Run)
    ensures Dedup(runs + [r]) == Keep(Dedup(runs), Center(r))
  {
    assert (runs + [r])[..|runs|] == runs;
  }

  /**
   * The kept line positions are strictly increasing with consecutive gaps
   * larger than 15, at most 100 of them, and each is the center of one of
   * the runs, so it lies inside that run.
   */
  lemma {:induction false} DedupShape(runs: seq<Run>)
    requires forall k :: 0 <= k < |runs| ==> runs[k].start < runs[k].end
    ensures |Dedup(runs)| <= MAX_LINES
    ensures forall k :: 0 <= k < |Dedup(runs)| - 1 ==> Dedup(runs)[k + 1] - Dedup(runs)[k] > MIN_LINE_GAP
    ensures forall k :: 0 <= k < |Dedup(runs)| ==>
              exists r :: r in runs && r.start <= Dedup(runs)[k] < r.end
  {
    if |runs| > 0 {
      var prefix := runs[..|runs| - 1];
      var last := runs[|runs| - 1];
      DedupShape(prefix);
      var d := Dedup(prefix);
      assert Dedup(runs) == Keep(d, Center(last));
      forall k | 0 <= k < |Dedup(runs)|
        ensures exists r :: r in runs && r.start <= Dedup(runs)[k] < r.end
      {
        if k < |d| {
          var r :| r in prefix && r.start <= d[k] < r.end;
          assert r in runs;
        } else {
          assert Dedup(runs)[k] == Center(last) && last in runs;
        }
      }
    }
  }

  /** Line positions found along an axis of length `n` lie in [0, n); vertical ones are not left of x = 5. */
  lemma LinesInRange(flags: seq<bool>, margin: nat)
    requires forall p :: 0 <= p < |flags| && p < margin ==> !flags[p]
    ensures |Dedup(Runs(flags))| <= MAX_LINES
    ensures forall k :: 0 <= k < |Dedup(Runs(flags))| - 1 ==>
              Dedup(Runs(flags))[k] + MIN_LINE_GAP < Dedup(Runs(flags))[k + 1]
    ensures forall k :: 0 <= k < |Dedup(Runs(flags))| ==> margin <= Dedup(Runs(flags))[k] < |flags|
  {
    var runs := Runs(flags);
    RunsMaximal(flags);
    DedupShape(runs);
    forall k | 0 <= k < |Dedup(runs)|
      ensures margin <= Dedup(runs)[k] < |flags|
    {
      var r :| r in runs && r.start <= Dedup(runs)[k] < r.end;
      var i :| 0 <= i < |runs| && runs[i] == r;
      assert MaximalRun(flags, r);
      assert flags[r.start];
    }
  }

  /** One saved cell: its (row, column) indices and its rectangle in image coordinates. */
  datatype Cell = Cell(row: int, col: int, rect: Rect)

  /** The cell between lines i, i+1 and j, j+1, inset by 2 px on every side. */
  function CellRect(area: Rect, hLines: seq<int>, vLines: seq<int>, i: int, j: int): (r: Rect)
    requires 0 <= i < |hLines| - 1 && 0 <= j < |vLines| - 1
    ensures r.x == area.x + vLines[j] + OFFSET && r.y == area.y + hLines[i] + OFFSET
    ensures r.x + r.w + OFFSET == area.x + vLines[j + 1] && r.y + r.h + OFFSET == area.y + hLines[i + 1]
  {
    Rect(area.x + vLines[j] + OFFSET, area.y + hLines[i] + OFFSET,
         vLines[j + 1] - vLines[j] - 2 * OFFSET, hLines[i + 1] - hLines[i] - 2 * OFFSET)
  }

  /** Cells narrower or shorter than 15 px are detection noise and are skipped. */
  predicate BigEnough(r: Rect)
  {
    r.w >= MIN_CELL && r.h >= MIN_CELL
  }

  /** Shrinks a rectangle so that it ends inside an image of the given size. */
  function Clip(r: Rect, imgW: int, imgH: int): (c: Rect)
    ensures c.x == r.x && c.y == r.y && c.w <= r.w && c.h <= r.h
    ensures c.x + c.w <= imgW && c.y + c.h <= imgH
    ensures r.x + r.w <= imgW ==> c.w == r.w
    ensures r.y + r.h <= imgH ==> c.h == r.h
  {
    Rect(r.x, r.y, if r.x + r.w > imgW then imgW - r.x else r.w, if r.y + r.h > imgH then imgH - r.y else r.h)
  }

  /** (i, j) comes strictly before (i', j') in row-major order. */
  predicate Before(i: int, j: int, i': int, j': int)
  {
    i < i' || (i == i' && j < j')
  }

  /** Number of adjacent line pairs on both axes, counted row of pairs by row of pairs. */
  function Slots(hCount: int, vCount: int): nat
    decreases hCount
  {
    if hCount < 2 || vCount < 2 then 0 else Slots(hCount - 1, vCount) + (vCount - 1)
  }

  /** The number of cell slots is (h_count - 1) * (v_count - 1) when both axes have a pair. */
  lemma {:induction false} SlotsProduct(hCount: int, vCount: int)
    requires hCount >= 2 && vCount >= 2
    ensures Slots(hCount, vCount) == (hCount - 1) * (vCount - 1)
    decreases hCount
  {
    if hCount > 2 {
      SlotsProduct(hCount - 1, vCount);
    }
  }

  /** `c` is the clipped, big-enough cell of its (row, col) pair. */
  ghost predicate Saved(area: Rect, hLines: seq<int>, vLines: seq<int>, imgW: int, imgH: int, c: Cell)
  {
    && 0 <= c.row < |hLines| - 1 && 0 <= c.col < |vLines| - 1
    && BigEnough(CellRect(area, hLines, vLines, c.row, c.col))
    && c.rect == Clip(CellRect(area, hLines, vLines, c.row, c.col), imgW, imgH)
  }

  /** The log holds a cell tagged (i, j). */
  ghost predicate Listed(log: seq<Cell>, i: int, j: int)
  {
    exists k :: 0 <= k < |log| && log[k].row == i && log[k].col == j
  }

  /** Consecutive entries of the log are in strictly increasing row-major order. */
  ghost predicate RowMajor(log: seq<Cell>)
  {
    forall k :: 0 <= k < |log| - 1 ==> Before(log[k].row, log[k].col, log[k + 1].row, log[k + 1].col)
  }

  /**
   * The saved cells are exactly the big-enough cells of adjacent line pairs,
   * each clipped to the image and tagged with its indices, in row-major order.
   */
  ghost predicate CellLog(area: Rect, hLines: seq<int>, vLines: seq<int>, imgW: int, imgH: int, log: seq<Cell>)
  {
    && (forall k :: 0 <= k < |log| ==> Saved(area, hLines, vLines, imgW, imgH, log[k]))
    && RowMajor(log)
    && (forall i, j :: (0 <= i < |hLines| - 1 && 0 <= j < |vLines| - 1 &&
          BigEnough(CellRect(area, hLines, vLines, i, j))) ==> Listed(log, i, j))
  }

  /** The inner loop of the cutting: the saved cells between lines i and i + 1, left to right. */
  method CutRow(area: Rect, hLines: seq<int>, vLines: seq<int>, imgW: int, imgH: int, i: int) returns (row: seq<Cell>)
    requires 0 <= i < |hLines| - 1
    ensures forall k :: 0 <= k < |row| ==> Saved(area, hLines, vLines, imgW, imgH, row[k]) && row[k].row == i
    ensures forall k :: 0 <= k < |row| - 1 ==> row[k].col < row[k + 1].col
    ensures forall j :: (0 <= j < |vLines| - 1 && BigEnough(CellRect(area, hLines, vLines, i, j))) ==>
              Listed(row, i, j)
    ensures |row| <= if |vLines| < 2 then 0 else |vLines| - 1
  {
    row := [];
    var j := 0;
    while j < |vLines| - 1
      invariant 0 <= j && (j <= |vLines| - 1 || (j == 0 && |vLines| <= 1))
      invariant forall k :: 0 <= k < |row| ==>
                  Saved(area, hLines, vLines, imgW, imgH, row[k]) && row[k].row == i && row[k].col < j
      invariant forall k :: 0 <= k < |row| - 1 ==> row[k].col < row[k + 1].col
      invariant forall j' :: (0 <= j' < j && BigEnough(CellRect(area, hLines, vLines, i, j'))) ==>
                  Listed(row, i, j')
      invariant |row| <= j
    {
      var cell := CellRect(area, hLines, vLines, i, j);
      if cell.w < MIN_CELL || cell.h < MIN_CELL {
        j := j + 1;
        continue;
      }
      if cell.x + cell.w > imgW {
        cell := cell.(w := imgW - cell.x);
      }
      if cell.y + cell.h > imgH {
        cell := cell.(h := imgH - cell.y);
      }
      ListedGrows(row, Cell(i, j, cell));
      row := row + [Cell(i, j, cell)];
      assert Listed(row, i, j) by { assert row[|row| - 1].row == i && row[|row| - 1].col == j; }
      j := j + 1;
    }
  }

  /** Appending to a log keeps every earlier entry listed. */
  lemma ListedGrows(log: seq<Cell>, extra: Cell)
    ensures forall i, j :: Listed(log, i, j) ==> Listed(log + [extra], i, j)
  {
    forall i, j | Listed(log, i, j)
      ensures Listed(log + [extra], i, j)
    {
      var k :| 0 <= k < |log| && log[k].row == i && log[k].col == j;
      assert (log + [extra])[k] == log[k];
    }
  }

  /** Entries of either part of a concatenated log are listed in the whole. */
  lemma ListedAppend(log: seq<Cell>, row: seq<Cell>)
    ensures forall i, j :: Listed(log, i, j) ==> Listed(log + row, i, j)
    ensures forall i, j :: Listed(row, i, j) ==> Listed(log + row, i, j)
  {
    forall i, j | Listed(log, i, j)
      ensures Listed(log + row, i, j)
    {
      var k :| 0 <= k < |log| && log[k].row == i && log[k].col == j;
      assert (log + row)[k] == log[k];
    }
    forall i, j | Listed(row, i, j)
      ensures Listed(log + row, i, j)
    {
      var k :| 0 <= k < |row| && row[k].row == i && row[k].col == j;
      assert (log + row)[|log| + k] == row[k];
    }
  }

  /** The cutting loops of extract_cells: one saved cell per accepted pair of adjacent lines. */
  method CutCells(area: Rect, hLines: seq<int>, vLines: seq<int>, imgW: int, imgH: int) returns (log: seq<Cell>)
    ensures CellLog(area, hLines, vLines, imgW, imgH, log)
    ensures |log| <= Slots(|hLines|, |vLines|)
  {
    log := [];
    var i := 0;
    while i < |hLines| - 1
      invariant 0 <= i && (i <= |hLines| - 1 || (i == 0 && |hLines| <= 1))
      invariant forall k :: 0 <= k < |log| ==> Saved(area, hLines, vLines, imgW, imgH, log[k]) && log[k].row < i
      invariant RowMajor(log)
      invariant forall i', j :: (0 <= i' < i && 0 <= j < |vLines| - 1 &&
                  BigEnough(CellRect(area, hLines, vLines, i', j))) ==> Listed(log, i', j)
      invariant |log| <= Slots(i + 1, |vLines|)
    {
      var row := CutRow(area, hLines, vLines, imgW, imgH, i);
      ListedAppend(log, row);
      log := log + row;
      i := i + 1;
    }
  }

  /**
   * extract_cells: nothing for an empty grid area; otherwise the horizontal
   * and vertical line positions are the merged candidate runs, and the saved
   * cells are those of `CellLog` for these lines.
   */
  method ExtractCells(img: Image, area: Rect) returns (hLines: seq<int>, vLines: seq<int>, cells: seq<Cell>)
    ensures area.w <= 0 || area.h <= 0 ==> hLines == [] && vLines == [] && cells == []
    ensures area.w > 0 && area.h > 0 ==>
              && hLines == Dedup(Runs(HorizontalFlags(img, area)))
              && vLines == Dedup(Runs(VerticalFlags(img, area)))
              && CellLog(area, hLines, vLines, img.w, img.h, cells)
              && |cells| <= Slots(|hLines|, |vLines|)
  {
    if area.w <= 0 || area.h <= 0 {
      return [], [], [];
    }
    var hProj, vProj := Projections(img, area);
    var hFlags := CandidateFlags(img, area, hProj, true);
    var vFlags := CandidateFlags(img, area, vProj, false);
    hLines := MergeLines(hFlags);
    vLines := MergeLines(vFlags);
    cells := CutCells(area, hLines, vLines, img.w, img.h);
  }

  /**
   * The line lists of extract_cells: at most 100 each, strictly increasing
   * with gaps over 15 px, inside the area, and no vertical line left of x = 5.
   */
  lemma ExtractedLinesShape(img: Image, area: Rect)
    requires area.w > 0 && area.h > 0
    ensures var hl := Dedup(Runs(HorizontalFlags(img, area)));
      && |hl| <= MAX_LINES
      && (forall k :: 0 <= k < |hl| - 1 ==> hl[k] + MIN_LINE_GAP < hl[k + 1])
      && (forall k :: 0 <= k < |hl| ==> 0 <= hl[k] < area.h)
    ensures var vl := Dedup(Runs(VerticalFlags(img, area)));
      && |vl| <= MAX_LINES
      && (forall k :: 0 <= k < |vl| - 1 ==> vl[k] + MIN_LINE_GAP < vl[k + 1])
      && (forall k :: 0 <= k < |vl| ==> LEFT_MARGIN <= vl[k] < area.w)
  {
    LinesInRange(HorizontalFlags(img, area), 0);
    LinesInRange(VerticalFlags(img, area), LEFT_MARGIN);
  }
}
