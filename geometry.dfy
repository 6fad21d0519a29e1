/** Rectangles and maximal runs of set flags, shared by every image stage. */
module Geometry {

  /** An SDL_Rect: origin (x, y) and size (w, h), in pixels. */
  datatype Rect = Rect(x: int, y: int, w: int, h: int)

  /** The empty rectangle `{0, 0, 0, 0}`. */
  const EmptyRect := Rect(0, 0, 0, 0)

  /** A half-open interval [start, end) of positions along one axis. */
  datatype Run = Run(start: int, end: int)

  /** Every flag in [i, j) is set. */
  ghost predicate AllSet(f: seq<bool>, i: int, j: int)
    requires 0 <= i <= j <= |f|
  {
    forall k :: i <= k < j ==> f[k]
  }

  /** Position of the first unset flag at or after `i` (|f| if there is none). */
  function RunEnd(f: seq<bool>, i: nat): (e: nat)
    requires i <= |f|
    ensures i <= e <= |f|
    ensures AllSet(f, i, e)
    ensures e == |f| || !f[e]
    decreases |f| - i
  {
    if i < |f| && f[i] then RunEnd(f, i + 1) else i
  }

  /** The maximal runs of set flags found scanning from `i` to the end. */
  function RunsFrom(f: seq<bool>, i: nat): seq<Run>
    requires i <= |f|
    decreases |f| - i
  {
    if i == |f| then []
    else if !f[i] then RunsFrom(f, i + 1)
    else
      var e := RunEnd(f, i);
      [Run(i, e)] + RunsFrom(f, e)
  }

  /** The maximal runs of set flags of `f`, left to right. */
  function Runs(f: seq<bool>): seq<Run>
  {
    RunsFrom(f, 0)
  }

  /** A run of `f` that cannot be extended on either side. */
  ghost predicate MaximalRun(f: seq<bool>, r: Run)
  {
    && 0 <= r.start < r.end <= |f|
    && AllSet(f, r.start, r.end)
    && (r.start == 0 || !f[r.start - 1])
    && (r.end == |f| || !f[r.end])
  }

  /** Runs are separated by at least one unset flag and appear left to right. */
  ghost predicate Ordered(rs: seq<Run>)
  {
    forall k :: 0 <= k < |rs| - 1 ==> rs[k].end < rs[k + 1].start
  }

  /** Inside an already open run, the run's end does not depend on where the scan resumes. */
  lemma {:induction false} RunEndFrom(f: seq<bool>, s: nat, k: nat)
    requires s <= k <= |f|
    requires AllSet(f, s, k)
    ensures RunEnd(f, s) == RunEnd(f, k)
    decreases k - s
  {
    if s < k {
      RunEndFrom(f, s + 1, k);
    }
  }

  /** An open run started at `s` and ended by the unset flag at `k` is the next run found. */
  lemma RunsFromClosed(f: seq<bool>, s: nat, k: nat)
    requires s < k < |f|
    requires AllSet(f, s, k) && !f[k]
    ensures RunsFrom(f, s) == [Run(s, k)] + RunsFrom(f, k + 1)
  {
    RunEndFrom(f, s, k);
  }

  /** An open run started at `s` that reaches the end is the last run. */
  lemma RunsFromOpenAtEnd(f: seq<bool>, s: nat)
    requires s < |f|
    requires AllSet(f, s, |f|)
    ensures RunsFrom(f, s) == [Run(s, |f|)]
  {
    RunEndFrom(f, s, |f|);
  }

  /** Every run found from a position that starts a fresh scan is maximal and lies after it. */
  lemma {:induction false} RunsFromMaximal(f: seq<bool>, i: nat)
    requires i <= |f|
    requires i == 0 || !f[i - 1]
    ensures forall k :: 0 <= k < |RunsFrom(f, i)| ==>
              MaximalRun(f, RunsFrom(f, i)[k]) && i <= RunsFrom(f, i)[k].start
    decreases |f| - i
  {
    if i == |f| {
    } else if !f[i] {
      RunsFromMaximal(f, i + 1);
    } else {
      var e := RunEnd(f, i);
      if e < |f| {
        assert RunsFrom(f, e) == RunsFrom(f, e + 1);
        RunsFromMaximal(f, e + 1);
      }
    }
  }

  /** The runs found from any position are ordered left to right and start after it. */
  lemma {:induction false} RunsFromOrdered(f: seq<bool>, i: nat)
    requires i <= |f|
    ensures Ordered(RunsFrom(f, i))
    ensures forall k :: 0 <= k < |RunsFrom(f, i)| ==> i <= RunsFrom(f, i)[k].start
    decreases |f| - i
  {
    if i == |f| {
    } else if !f[i] {
      RunsFromOrdered(f, i + 1);
    } else {
      var e := RunEnd(f, i);
      RunsFromOrdered(f, e);
      if e < |f| {
        assert RunsFrom(f, e) == RunsFrom(f, e + 1);
        RunsFromOrdered(f, e + 1);
      }
    }
  }

  /** Every set flag at or after `i` lies inside one of the runs found from `i`. */
  lemma {:induction false} RunsFromCover(f: seq<bool>, i: nat, p: nat)
    requires i <= p < |f| && f[p]
    ensures exists k :: 0 <= k < |RunsFrom(f, i)| && RunsFrom(f, i)[k].start <= p < RunsFrom(f, i)[k].end
    decreases |f| - i
  {
    var rs := RunsFrom(f, i);
    if !f[i] {
      RunsFromCover(f, i + 1, p);
    } else {
      var e := RunEnd(f, i);
      var rest := RunsFrom(f, e);
      assert rs == [Run(i, e)] + rest;
      if p < e {
        assert rs[0].start <= p < rs[0].end;
      } else {
        RunsFromCover(f, e, p);
        var k' :| 0 <= k' < |rest| && rest[k'].start <= p < rest[k'].end;
        assert rs[k' + 1] == rest[k'];
      }
    }
  }

  /** The runs of a whole flag sequence are maximal, ordered and cover every set flag. */
  lemma RunsMaximal(f: seq<bool>)
    ensures forall k :: 0 <= k < |Runs(f)| ==> MaximalRun(f, Runs(f)[k])
    ensures Ordered(Runs(f))
    ensures forall p :: 0 <= p < |f| && f[p] ==>
              exists k :: 0 <= k < |Runs(f)| && Runs(f)[k].start <= p < Runs(f)[k].end
  {
    RunsFromMaximal(f, 0);
    RunsFromOrdered(f, 0);
    forall p | 0 <= p < |f| && f[p]
      ensures exists k :: 0 <= k < |Runs(f)| && Runs(f)[k].start <= p < Runs(f)[k].end
    {
      RunsFromCover(f, 0, p);
      assert Runs(f) == RunsFrom(f, 0);
    }
  }

  /**
   * State of a left-to-right scan that has read the flags before `y`: the
   * runs already closed are `done`, and when `open` holds a run started at
   * `start` is still being read.
   */
  ghost predicate Scanned(f: seq<bool>, done: seq<Run>, open: bool, start: int, y: int)
  {
    && 0 <= y <= |f|
    && (open ==> && 0 <= start < y
                 && AllSet(f, start, y)
                 && (start == 0 || !f[start - 1])
                 && Runs(f) == done + RunsFrom(f, start))
    && (!open ==> (y == 0 || !f[y - 1]) && Runs(f) == done + RunsFrom(f, y))
  }

  /** Nothing is read yet. */
  lemma ScanBegin(f: seq<bool>)
    ensures Scanned(f, [], false, 0, 0)
  {
  }

  /** A set flag opens a run, or extends the open one. */
  lemma ScanSet(f: seq<bool>, done: seq<Run>, open: bool, start: int, y: int)
    requires Scanned(f, done, open, start, y) && y < |f| && f[y]
    ensures Scanned(f, done, true, if open then start else y, y + 1)
  {
  }

  /** An unset flag closes the open run, or is skipped. */
  lemma ScanUnset(f: seq<bool>, done: seq<Run>, open: bool, start: int, y: int)
    requires Scanned(f, done, open, start, y) && y < |f| && !f[y]
    ensures open ==> Scanned(f, done + [Run(start, y)], false, start, y + 1)
    ensures !open ==> Scanned(f, done, false, start, y + 1)
  {
    if open {
      RunsFromClosed(f, start, y);
    } else {
      assert RunsFrom(f, y) == RunsFrom(f, y + 1);
    }
  }

  /** At the end of the flags, the open run (if any) is the last run. */
  lemma ScanEnd(f: seq<bool>, done: seq<Run>, open: bool, start: int)
    requires Scanned(f, done, open, start, |f|)
    ensures Runs(f) == done + (if open then [Run(start, |f|)] else [])
  {
    if open {
      RunsFromOpenAtEnd(f, start);
    } else {
      assert RunsFrom(f, |f|) == [];
    }
  }
}
