/**
 * The word-search solver: a word is looked for in a character grid, starting
 * from every cell in row-major order and along five directions; the first
 * match is reported and recorded in the global `word_coordinates` record.
 * The grid is `grid[y][x]` with `rows` rows and `cols` columns.
 */
module Solver {
  datatype Option<T> = None | Some(value: T)

  /** Start and end cells of a word: the columns and rows of its first and last letters. */
  datatype Coordinates = Coordinates(startX: int, startY: int, endX: int, endY: int)

  /** The (x, y) steps search_the_word tries, in its order: i = -1..1 outer, j = 0..1 inner, (0, 0) skipped. */
  const Directions: seq<(int, int)> := [(-1, 0), (-1, 1), (0, 1), (1, 0), (1, 1)]

  /** The first `rows` rows of the grid each hold at least `cols` characters. */
  predicate WellFormed(grid: seq<seq<char>>, rows: int, cols: int)
  {
    rows <= |grid| && forall y :: 0 <= y < rows ==> cols <= |grid[y]|
  }

  predicate InGrid(rows: int, cols: int, x: int, y: int)
  {
    0 <= x < cols && 0 <= y < rows
  }

  /** word[0] in C: the first letter, or the terminating NUL of an empty word. */
  function FirstChar(word: seq<char>): char
  {
    if |word| > 0 then word[0] else '\0'
  }

  /** `x` moved `k` steps by `d`, a step of -1, 0 or 1. */
  function Along(x: int, d: int, k: int): (r: int)
    requires -1 <= d <= 1
    ensures r == x + k * d
  {
    if d == 1 then x + k else if d == -1 then x - k else x
  }

  /**
   * The letters of `word` from `index` on lie on the grid from (x, y) onwards
   * along (i, j): the condition under which the loop of go_directions runs
   * through to the end of the word.
   */
  predicate Matches(grid: seq<seq<char>>, rows: int, cols: int, word: seq<char>, index: nat, x: int, y: int, i: int, j: int)
    requires WellFormed(grid, rows, cols)
    decreases |word| - index
  {
    index == |word|
    || (index < |word| && InGrid(rows, cols, x, y) && grid[y][x] == word[index]
        && Matches(grid, rows, cols, word, index + 1, x + i, y + j, i, j))
  }

  /** Whether the word, whole, lies along direction `d` starting at (x, y): what search_the_word tests. */
  predicate Hit(grid: seq<seq<char>>, rows: int, cols: int, word: seq<char>, x: int, y: int, d: int)
    requires WellFormed(grid, rows, cols) && 0 <= d < |Directions|
  {
    && InGrid(rows, cols, x, y) && grid[y][x] == FirstChar(word)
    && Matches(grid, rows, cols, word, 1, x + Directions[d].0, y + Directions[d].1, Directions[d].0, Directions[d].1)
  }

  /** The coordinates reported for a word of length `len` that starts at (x, y) along direction `d`. */
  function Found(x: int, y: int, d: int, len: int): Coordinates
    requires 0 <= d < |Directions|
  {
    Coordinates(x, y, Along(x, Directions[d].0, len - 1), Along(y, Directions[d].1, len - 1))
  }

  /** The first direction from `d` on along which the word starts at (x, y). */
  function TryDirections(grid: seq<seq<char>>, rows: int, cols: int, word: seq<char>, x: int, y: int, d: nat): Option<Coordinates>
    requires WellFormed(grid, rows, cols)
    decreases |Directions| - d
  {
    if d >= |Directions| then None
    else if Hit(grid, rows, cols, word, x, y, d) then Some(Found(x, y, d, |word|))
    else TryDirections(grid, rows, cols, word, x, y, d + 1)
  }

  /** The first match whose start is at or after (x, y) in row-major order. */
  function SearchFrom(grid: seq<seq<char>>, rows: int, cols: int, word: seq<char>, y: int, x: int): Option<Coordinates>
    requires WellFormed(grid, rows, cols) && 0 <= x
    decreases rows - y, cols - x
  {
    if y >= rows then None
    else if x >= cols then SearchFrom(grid, rows, cols, word, y + 1, 0)
    else match TryDirections(grid, rows, cols, word, x, y, 0)
      case Some(c) => Some(c)
      case None => SearchFrom(grid, rows, cols, word, y, x + 1)
  }

  /** The result search_the_word prints: the first match, or none ("Not found"). */
  function Search(grid: seq<seq<char>>, rows: int, cols: int, word: seq<char>): Option<Coordinates>
    requires WellFormed(grid, rows, cols)
  {
    SearchFrom(grid, rows, cols, word, 0, 0)
  }

  /** Candidate (x', y', d') is tried before (x, y, d): row-major start order, then direction order. */
  predicate Before(x': int, y': int, d': int, x: int, y: int, d: int)
  {
    y' < y || (y' == y && (x' < x || (x' == x && d' < d)))
  }

  /** (x, y, d) is a match and no candidate tried before it is one. */
  ghost predicate IsFirstHit(grid: seq<seq<char>>, rows: int, cols: int, word: seq<char>, x: int, y: int, d: int)
    requires WellFormed(grid, rows, cols) && 0 <= d < |Directions|
  {
    && Hit(grid, rows, cols, word, x, y, d)
    && forall x', y', d' :: 0 <= d' < |Directions| && Before(x', y', d', x, y, d) ==> !Hit(grid, rows, cols, word, x', y', d')
  }

  /** The first letter of the word occurs somewhere in the grid. */
  ghost predicate Appears(grid: seq<seq<char>>, rows: int, cols: int, c: char)
    requires WellFormed(grid, rows, cols)
  {
    exists y, x :: InGrid(rows, cols, x, y) && grid[y][x] == c
  }

  /** The first letter occurs in a cell before (x, y) in row-major order. */
  ghost predicate AppearsBefore(grid: seq<seq<char>>, rows: int, cols: int, c: char, y: int, x: int)
    requires WellFormed(grid, rows, cols)
  {
    exists y', x' :: InGrid(rows, cols, x', y') && (y' < y || (y' == y && x' < x)) && grid[y'][x'] == c
  }

  /**
   * The global record after one search_the_word: the match when there is one;
   * otherwise `end_x` is left at -1 by the attempts when the first letter
   * occurs anywhere, and nothing changes when it does not.
   */
  ghost function After(c: Coordinates, grid: seq<seq<char>>, rows: int, cols: int, word: seq<char>): Coordinates
    requires WellFormed(grid, rows, cols)
  {
    match Search(grid, rows, cols, word)
    case Some(f) => f
    case None => if Appears(grid, rows, cols, FirstChar(word)) then c.(endX := -1) else c
  }

  /** The global record after searching the words in turn. */
  ghost function AfterAll(c: Coordinates, grid: seq<seq<char>>, rows: int, cols: int, words: seq<seq<char>>): Coordinates
    requires WellFormed(grid, rows, cols)
  {
    if |words| == 0 then c
    else After(AfterAll(c, grid, rows, cols, words[..|words| - 1]), grid, rows, cols, words[|words| - 1])
  }

  /** The direction search_the_word tries at loop position (i, j), or the next one when (i, j) is skipped or past the end. */
  function Next(i: int, j: int): nat
  {
    if i < 0 then (if j < 0 then 0 else if j > 2 then 2 else j)
    else if i == 0 then (if j <= 1 then 2 else 3)
    else if i == 1 then (if j < 0 then 3 else if j > 2 then 5 else 3 + j)
    else 5
  }

  /** The global `word_coordinates`. */
  class WordCoordinates {
    var startX: int
    var startY: int
    var endX: int
    var endY: int

    /** The initial value of the global: all -1. */
    constructor()
      ensures startX == -1 && startY == -1 && endX == -1 && endY == -1
    {
      startX, startY, endX, endY := -1, -1, -1, -1;
    }

    function Value(): Coordinates
      reads this
    {
      Coordinates(startX, startY, endX, endY)
    }

    /**
     * go_directions: follows the word from letter `index` at (x, y) along
     * (i, j) and records the last cell as the end when every remaining
     * letter matched inside the grid; otherwise nothing changes.
     */
    method GoDirections(grid: seq<seq<char>>, index: nat, word: seq<char>, rows: int, cols: int, x: int, y: int, i: int, j: int)
      requires WellFormed(grid, rows, cols) && -1 <= i <= 1 && -1 <= j <= 1
      modifies this
      ensures startX == old(startX) && startY == old(startY)
      ensures Matches(grid, rows, cols, word, index, x, y, i, j) ==>
                endX == Along(x, i, |word| - index - 1) && endY == Along(y, j, |word| - index - 1)
      ensures !Matches(grid, rows, cols, word, index, x, y, i, j) ==> endX == old(endX) && endY == old(endY)
    {
      var cx, cy, k := x, y, index;
      while 0 <= cx && 0 <= cy && cx < cols && cy < rows && k < |word| && grid[cy][cx] == word[k]
        invariant index <= k && (index <= |word| ==> k <= |word|)
        invariant cx == Along(x, i, k - index) && cy == Along(y, j, k - index)
        invariant Matches(grid, rows, cols, word, index, x, y, i, j) == Matches(grid, rows, cols, word, k, cx, cy, i, j)
        decreases |word| - k
      {
        cx, cy, k := cx + i, cy + j, k + 1;
      }
      if k == |word| {
        endX, endY := cx - i, cy - j;
      }
    }

    /**
     * The direction loops of search_the_word at a start cell holding the
     * first letter: each direction resets `end_x` to -1 and calls
     * go_directions; the first that sets it records the start and stops.
     */
    method TryStart(grid: seq<seq<char>>, rows: int, cols: int, word: seq<char>, x: int, y: int) returns (found: Option<Coordinates>)
      requires WellFormed(grid, rows, cols) && InGrid(rows, cols, x, y) && grid[y][x] == FirstChar(word)
      modifies this
      ensures found == TryDirections(grid, rows, cols, word, x, y, 0)
      ensures found.Some? ==> Value() == found.value
      ensures found.None? ==> startX == old(startX) && startY == old(startY) && endX == -1 && endY == old(endY)
    {
      for i := -1 to 2
        invariant TryDirections(grid, rows, cols, word, x, y, 0) == TryDirections(grid, rows, cols, word, x, y, Next(i, 0))
        invariant startX == old(startX) && startY == old(startY) && endY == old(endY)
        invariant endX == if i == -1 then old(endX) else -1
      {
        for j := 0 to 2
          invariant TryDirections(grid, rows, cols, word, x, y, 0) == TryDirections(grid, rows, cols, word, x, y, Next(i, j))
          invariant startX == old(startX) && startY == old(startY) && endY == old(endY)
          invariant endX == if i == -1 && j == 0 then old(endX) else -1
        {
          if i == 0 && j == 0 {
            continue;
          }
          var hit := Attempt(grid, rows, cols, word, x, y, i, j);
          if hit {
            return Some(Value());
          }
        }
      }
      found := None;
    }

    /**
     * One direction of search_the_word: `end_x` is reset to -1 and
     * go_directions is called from the next cell; a changed `end_x` means a
     * match, and the start is recorded.
     */
    method Attempt(grid: seq<seq<char>>, rows: int, cols: int, word: seq<char>, x: int, y: int, i: int, j: int) returns (hit: bool)
      requires WellFormed(grid, rows, cols) && InGrid(rows, cols, x, y) && grid[y][x] == FirstChar(word)
      requires -1 <= i <= 1 && 0 <= j <= 1 && (i, j) != (0, 0)
      modifies this
      ensures hit == Hit(grid, rows, cols, word, x, y, Next(i, j))
      ensures hit ==> Value() == Found(x, y, Next(i, j), |word|)
      ensures !hit ==> startX == old(startX) && startY == old(startY) && endX == -1 && endY == old(endY)
    {
      ghost var d := Next(i, j);
      assert Directions[d] == (i, j);
      endX := -1;
      GoDirections(grid, 1, word, rows, cols, x + i, y + j, i, j);
      if Hit(grid, rows, cols, word, x, y, d) {
        EndInGrid(grid, rows, cols, word, x, y, d);
      }
      hit := endX != -1;
      if hit {
        startX, startY := x, y;
      }
    }

    /**
     * search_the_word: the first match in row-major start order, then
     * direction order, is returned (printed) and recorded in the global;
     * "Not found" is `None`.
     */
    method SearchTheWord(grid: seq<seq<char>>, rows: int, cols: int, word: seq<char>) returns (report: Option<Coordinates>)
      requires WellFormed(grid, rows, cols)
      modifies this
      ensures report == Search(grid, rows, cols, word)
      ensures Value() == After(old(Value()), grid, rows, cols, word)
    {
      ghost var c := FirstChar(word);
      var y := 0;
      while y < rows
        invariant 0 <= y && (0 <= rows ==> y <= rows)
        invariant Search(grid, rows, cols, word) == SearchFrom(grid, rows, cols, word, y, 0)
        invariant startX == old(startX) && startY == old(startY) && endY == old(endY)
        invariant endX == if AppearsBefore(grid, rows, cols, c, y, 0) then -1 else old(endX)
      {
        var x := 0;
        while x < cols
          invariant 0 <= x && (0 <= cols ==> x <= cols)
          invariant Search(grid, rows, cols, word) == SearchFrom(grid, rows, cols, word, y, x)
          invariant startX == old(startX) && startY == old(startY) && endY == old(endY)
          invariant endX == if AppearsBefore(grid, rows, cols, c, y, x) then -1 else old(endX)
        {
          if grid[y][x] != FirstChar(word) {
            FirstLetterNeeded(grid, rows, cols, word, x, y, 0);
            AppearsStep(grid, rows, cols, c, y, x);
            x := x + 1;
            continue;
          }
          report := TryStart(grid, rows, cols, word, x, y);
          if report.Some? {
            return;
          }
          AppearsStep(grid, rows, cols, c, y, x);
          x := x + 1;
        }
        AppearsRow(grid, rows, cols, c, y, x);
        y := y + 1;
      }
      AppearsEnd(grid, rows, cols, c, y);
      report := None;
    }

    /** resolve: searches the words of the list in turn; the reports are the printed lines. */
    method Resolve(list: seq<seq<char>>, grid: seq<seq<char>>, length: nat, rows: int, cols: int) returns (reports: seq<Option<Coordinates>>)
      requires WellFormed(grid, rows, cols) && length <= |list|
      modifies this
      ensures |reports| == length
      ensures forall k :: 0 <= k < length ==> reports[k] == Search(grid, rows, cols, list[k])
      ensures Value() == AfterAll(old(Value()), grid, rows, cols, list[..length])
    {
      reports := [];
      for i := 0 to length
        invariant |reports| == i
        invariant forall k :: 0 <= k < i ==> reports[k] == Search(grid, rows, cols, list[k])
        invariant Value() == AfterAll(old(Value()), grid, rows, cols, list[..i])
      {
        var report := SearchTheWord(grid, rows, cols, list[i]);
        reports := reports + [report];
        assert list[..i + 1][..i] == list[..i];
      }
    }
  }

  /** Letter `index + m` of the word is in the grid `m` steps on from (x, y) along (i, j), for every remaining letter. */
  ghost predicate OnGrid(grid: seq<seq<char>>, rows: int, cols: int, word: seq<char>, index: nat, x: int, y: int, i: int, j: int)
    requires WellFormed(grid, rows, cols) && -1 <= i <= 1 && -1 <= j <= 1
  {
    forall m :: 0 <= m < |word| - index ==>
      InGrid(rows, cols, Along(x, i, m), Along(y, j, m)) && grid[Along(y, j, m)][Along(x, i, m)] == word[index + m]
  }

  /** The remaining letters are on the grid when the next one is at (x, y) and the rest follow from the next cell. */
  lemma OnGridStep(grid: seq<seq<char>>, rows: int, cols: int, word: seq<char>, index: nat, x: int, y: int, i: int, j: int)
    requires WellFormed(grid, rows, cols) && -1 <= i <= 1 && -1 <= j <= 1 && index < |word|
    ensures OnGrid(grid, rows, cols, word, index, x, y, i, j) <==>
              InGrid(rows, cols, x, y) && grid[y][x] == word[index] && OnGrid(grid, rows, cols, word, index + 1, x + i, y + j, i, j)
  {
    var x1, y1 := x + i, y + j;
    if OnGrid(grid, rows, cols, word, index, x, y, i, j) {
      assert Along(x, i, 0) == x && Along(y, j, 0) == y;
      forall m | 0 <= m < |word| - (index + 1)
        ensures InGrid(rows, cols, Along(x1, i, m), Along(y1, j, m))
        ensures grid[Along(y1, j, m)][Along(x1, i, m)] == word[index + 1 + m]
      {
        assert Along(x, i, m + 1) == Along(x1, i, m) && Along(y, j, m + 1) == Along(y1, j, m);
      }
    }
    if InGrid(rows, cols, x, y) && grid[y][x] == word[index] && OnGrid(grid, rows, cols, word, index + 1, x1, y1, i, j) {
      forall m | 0 <= m < |word| - index
        ensures InGrid(rows, cols, Along(x, i, m), Along(y, j, m))
        ensures grid[Along(y, j, m)][Along(x, i, m)] == word[index + m]
      {
        if m > 0 {
          assert Along(x, i, m) == Along(x1, i, m - 1) && Along(y, j, m) == Along(y1, j, m - 1);
          assert word[index + m] == word[index + 1 + (m - 1)];
        }
      }
    }
  }

  /** Matches says that the remaining letters of the word lie on the grid from (x, y) along (i, j). */
  lemma {:induction false} MatchesMeaning(grid: seq<seq<char>>, rows: int, cols: int, word: seq<char>, index: nat, x: int, y: int, i: int, j: int)
    requires WellFormed(grid, rows, cols) && -1 <= i <= 1 && -1 <= j <= 1
    ensures Matches(grid, rows, cols, word, index, x, y, i, j) <==> index <= |word| && OnGrid(grid, rows, cols, word, index, x, y, i, j)
    decreases |word| - index
  {
    if index < |word| {
      MatchesMeaning(grid, rows, cols, word, index + 1, x + i, y + j, i, j);
      OnGridStep(grid, rows, cols, word, index, x, y, i, j);
    }
  }

  /** A hit is the whole word on the grid: letter k is inside the grid, k steps along the direction from the start. */
  lemma HitMeaning(grid: seq<seq<char>>, rows: int, cols: int, word: seq<char>, x: int, y: int, d: int)
    requires WellFormed(grid, rows, cols) && 0 <= d < |Directions|
    ensures Hit(grid, rows, cols, word, x, y, d) <==>
              0 < |word| &&
              forall k :: 0 <= k < |word| ==>
                InGrid(rows, cols, Along(x, Directions[d].0, k), Along(y, Directions[d].1, k))
                && grid[Along(y, Directions[d].1, k)][Along(x, Directions[d].0, k)] == word[k]
  {
    var (i, j) := Directions[d];
    assert Hit(grid, rows, cols, word, x, y, d) <==> 0 < |word| && Matches(grid, rows, cols, word, 0, x, y, i, j);
    MatchesMeaning(grid, rows, cols, word, 0, x, y, i, j);
  }

  /** The end of a hit is a cell of the grid, so go_directions never reports it as -1. */
  lemma EndInGrid(grid: seq<seq<char>>, rows: int, cols: int, word: seq<char>, x: int, y: int, d: int)
    requires WellFormed(grid, rows, cols) && 0 <= d < |Directions|
    requires Hit(grid, rows, cols, word, x, y, d)
    ensures InGrid(rows, cols, Found(x, y, d, |word|).endX, Found(x, y, d, |word|).endY)
  {
    HitMeaning(grid, rows, cols, word, x, y, d);
    var k := |word| - 1;
    assert InGrid(rows, cols, Along(x, Directions[d].0, k), Along(y, Directions[d].1, k));
  }

  /** A cell that does not hold the first letter starts no match. */
  lemma {:induction false} FirstLetterNeeded(grid: seq<seq<char>>, rows: int, cols: int, word: seq<char>, x: int, y: int, d: nat)
    requires WellFormed(grid, rows, cols) && InGrid(rows, cols, x, y) && grid[y][x] != FirstChar(word)
    ensures TryDirections(grid, rows, cols, word, x, y, d) == None
    decreases |Directions| - d
  {
    if d < |Directions| {
      FirstLetterNeeded(grid, rows, cols, word, x, y, d + 1);
    }
  }

  lemma AppearsStep(grid: seq<seq<char>>, rows: int, cols: int, c: char, y: int, x: int)
    requires WellFormed(grid, rows, cols) && InGrid(rows, cols, x, y)
    ensures AppearsBefore(grid, rows, cols, c, y, x + 1) <==> AppearsBefore(grid, rows, cols, c, y, x) || grid[y][x] == c
  {
    if grid[y][x] == c {
      assert InGrid(rows, cols, x, y) && (y < y || (y == y && x < x + 1)) && grid[y][x] == c;
    }
  }

  lemma AppearsRow(grid: seq<seq<char>>, rows: int, cols: int, c: char, y: int, x: int)
    requires WellFormed(grid, rows, cols) && cols <= x
    ensures AppearsBefore(grid, rows, cols, c, y + 1, 0) <==> AppearsBefore(grid, rows, cols, c, y, x)
  {
  }

  lemma AppearsEnd(grid: seq<seq<char>>, rows: int, cols: int, c: char, y: int)
    requires WellFormed(grid, rows, cols) && rows <= y
    ensures AppearsBefore(grid, rows, cols, c, y, 0) <==> Appears(grid, rows, cols, c)
  {
    if Appears(grid, rows, cols, c) {
      var y', x' :| InGrid(rows, cols, x', y') && grid[y'][x'] == c;
      assert y' < y;
    }
  }

  /** Cell (x', y') is the cell (x, y) or one after it in row-major order. */
  predicate AtOrAfter(x': int, y': int, x: int, y: int)
  {
    y' > y || (y' == y && x' >= x)
  }

  /** TryDirections returns the first direction from `d0` on that hits, and none when none does. */
  lemma {:induction false} TryDirectionsFirst(grid: seq<seq<char>>, rows: int, cols: int, word: seq<char>, x: int, y: int, d0: nat)
    returns (d: nat)
    requires WellFormed(grid, rows, cols)
    ensures TryDirections(grid, rows, cols, word, x, y, d0).Some? ==>
              && d0 <= d < |Directions| && Hit(grid, rows, cols, word, x, y, d)
              && TryDirections(grid, rows, cols, word, x, y, d0).value == Found(x, y, d, |word|)
              && forall d' :: d0 <= d' < d ==> !Hit(grid, rows, cols, word, x, y, d')
    ensures TryDirections(grid, rows, cols, word, x, y, d0).None? ==>
              forall d' :: d0 <= d' < |Directions| ==> !Hit(grid, rows, cols, word, x, y, d')
    decreases |Directions| - d0
  {
    if d0 >= |Directions| || Hit(grid, rows, cols, word, x, y, d0) {
      d := d0;
    } else {
      d := TryDirectionsFirst(grid, rows, cols, word, x, y, d0 + 1);
    }
  }

  /** SearchFrom returns the first hit among the candidates whose start is at or after (x, y), and none when there is none. */
  lemma {:induction false} SearchFromFirst(grid: seq<seq<char>>, rows: int, cols: int, word: seq<char>, y: int, x: int)
    returns (d: nat)
    requires WellFormed(grid, rows, cols) && 0 <= x
    ensures SearchFrom(grid, rows, cols, word, y, x).Some? ==>
              var c := SearchFrom(grid, rows, cols, word, y, x).value;
              && d < |Directions| && AtOrAfter(c.startX, c.startY, x, y)
              && Hit(grid, rows, cols, word, c.startX, c.startY, d) && c == Found(c.startX, c.startY, d, |word|)
              && forall x', y', d' :: 0 <= d' < |Directions| && AtOrAfter(x', y', x, y) && Before(x', y', d', c.startX, c.startY, d)
                   ==> !Hit(grid, rows, cols, word, x', y', d')
    ensures SearchFrom(grid, rows, cols, word, y, x).None? ==>
              forall x', y', d' :: 0 <= d' < |Directions| && AtOrAfter(x', y', x, y) ==> !Hit(grid, rows, cols, word, x', y', d')
    decreases rows - y, cols - x
  {
    if y >= rows {
      d := 0;
    } else if x >= cols {
      d := SearchFromFirst(grid, rows, cols, word, y + 1, 0);
    } else {
      d := TryDirectionsFirst(grid, rows, cols, word, x, y, 0);
      if TryDirections(grid, rows, cols, word, x, y, 0).None? {
        d := SearchFromFirst(grid, rows, cols, word, y, x + 1);
      }
    }
  }

  /**
   * A reported match is the first hit: the start holds the first letter, the
   * word lies along direction `d` to the reported end, and no candidate tried
   * earlier (row-major start, then direction order) is a hit.
   */
  lemma SearchFound(grid: seq<seq<char>>, rows: int, cols: int, word: seq<char>) returns (d: nat)
    requires WellFormed(grid, rows, cols) && Search(grid, rows, cols, word).Some?
    ensures var c := Search(grid, rows, cols, word).value;
            && d < |Directions| && IsFirstHit(grid, rows, cols, word, c.startX, c.startY, d)
            && c == Found(c.startX, c.startY, d, |word|)
  {
    d := SearchFromFirst(grid, rows, cols, word, 0, 0);
  }

  /** "Not found" is reported exactly when no start cell and direction gives a hit. */
  lemma SearchNotFound(grid: seq<seq<char>>, rows: int, cols: int, word: seq<char>)
    requires WellFormed(grid, rows, cols)
    ensures Search(grid, rows, cols, word).None? <==>
              forall x, y, d :: 0 <= d < |Directions| ==> !Hit(grid, rows, cols, word, x, y, d)
  {
    var d := SearchFromFirst(grid, rows, cols, word, 0, 0);
  }

  /** A reported word runs from its start to its end, one letter per cell, never upwards: end = start + (len - 1) * (dx, dy) with dy >= 0. */
  lemma SearchSegment(grid: seq<seq<char>>, rows: int, cols: int, word: seq<char>) returns (dx: int, dy: int)
    requires WellFormed(grid, rows, cols) && Search(grid, rows, cols, word).Some?
    ensures var c := Search(grid, rows, cols, word).value;
            && (dx, dy) in Directions && 0 <= dy && c.startY <= c.endY && 0 < |word|
            && c.endX == c.startX + (|word| - 1) * dx && c.endY == c.startY + (|word| - 1) * dy
            && forall k :: 0 <= k < |word| ==>
                 InGrid(rows, cols, c.startX + k * dx, c.startY + k * dy) && grid[c.startY + k * dy][c.startX + k * dx] == word[k]
  {
    var c := Search(grid, rows, cols, word).value;
    var d := SearchFound(grid, rows, cols, word);
    dx, dy := Directions[d].0, Directions[d].1;
    HitMeaning(grid, rows, cols, word, c.startX, c.startY, d);
    forall k | 0 <= k < |word|
      ensures InGrid(rows, cols, c.startX + k * dx, c.startY + k * dy) && grid[c.startY + k * dy][c.startX + k * dx] == word[k]
    {
      assert Along(c.startX, dx, k) == c.startX + k * dx && Along(c.startY, dy, k) == c.startY + k * dy;
    }
  }

  /** A one-letter word is found exactly when its letter occurs in the grid, and its end is its start. */
  lemma OneLetter(grid: seq<seq<char>>, rows: int, cols: int, word: seq<char>)
    requires WellFormed(grid, rows, cols) && |word| == 1
    ensures Search(grid, rows, cols, word).Some? <==> Appears(grid, rows, cols, word[0])
    ensures Search(grid, rows, cols, word).Some? ==>
              var c := Search(grid, rows, cols, word).value;
              c.endX == c.startX && c.endY == c.startY
  {
    SearchNotFound(grid, rows, cols, word);
    if Appears(grid, rows, cols, word[0]) {
      var y, x :| InGrid(rows, cols, x, y) && grid[y][x] == word[0];
      assert Hit(grid, rows, cols, word, x, y, 0);
    }
    if Search(grid, rows, cols, word).Some? {
      var d := SearchFound(grid, rows, cols, word);
    }
  }

  /** The 8 x 20 grid of the solver's test driver. */
  const DriverGrid: seq<seq<char>> := [
    "DGHEYEUJKQIDIDIDIDID", "FSING1QJJDAAAAAAAAAA", "EYUTTFSODIAAAAHAAAAA",
    "KIORKFLKLAAAAEAAAAAA", "TEFOTOFRTLAALAAAAAAA", "ASZPDPHKLSOLAAAAAAAA",
    "ETYIGIKNXKOAAAAAAAAA", "UKGCFCEDEDAAAAAAAAAA"]

  /** The test driver expects HELLO from (14, 2) to (10, 6): a match going down-left. */
  lemma DriverHello()
    ensures WellFormed(DriverGrid, 8, 20)
    ensures Hit(DriverGrid, 8, 20, "HELLO", 14, 2, 1) && Found(14, 2, 1, 5) == Coordinates(14, 2, 10, 6)
  {
  }

  /** The test driver expects ENTROPIC from (3, 0) to (3, 7): a match going down. */
  lemma DriverEntropic()
    ensures WellFormed(DriverGrid, 8, 20)
    ensures Hit(DriverGrid, 8, 20, "ENTROPIC", 3, 0, 2) && Found(3, 0, 2, 8) == Coordinates(3, 0, 3, 7)
  {
    var g, w := DriverGrid, "ENTROPIC";
    assert Matches(g, 8, 20, w, 8, 3, 8, 0, 1);
    assert Matches(g, 8, 20, w, 7, 3, 7, 0, 1);
    assert Matches(g, 8, 20, w, 6, 3, 6, 0, 1);
    assert Matches(g, 8, 20, w, 5, 3, 5, 0, 1);
    assert Matches(g, 8, 20, w, 4, 3, 4, 0, 1);
    assert Matches(g, 8, 20, w, 3, 3, 3, 0, 1);
    assert Matches(g, 8, 20, w, 2, 3, 2, 0, 1);
  }

  /** The test driver expects ING1 from (2, 1) to (5, 1): a match going right. */
  lemma DriverIng()
    ensures WellFormed(DriverGrid, 8, 20)
    ensures Hit(DriverGrid, 8, 20, "ING1", 2, 1, 3) && Found(2, 1, 3, 4) == Coordinates(2, 1, 5, 1)
  {
  }

  /** The 8 x 10 grid of the older solver's own test; its fourth row is one letter short and ends in NUL. */
  const ShortGrid: seq<seq<char>> := [
    "DGHEYEUJKQ", "FSGDJNHJJD", "EYUATTSNDI", "KIOLKRLKI\0",
    "TEFRTOFRTE", "ASZXDPHKLS", "ETYSGIKNXK", "UKGFFCEDED"]

  /** The older solver's test expects ENTROPIC from (5, 0) to (5, 7): a match going down. */
  lemma ShortGridEntropic()
    ensures WellFormed(ShortGrid, 8, 10)
    ensures Hit(ShortGrid, 8, 10, "ENTROPIC", 5, 0, 2) && Found(5, 0, 2, 8) == Coordinates(5, 0, 5, 7)
  {
    var g, w := ShortGrid, "ENTROPIC";
    assert Matches(g, 8, 10, w, 8, 5, 8, 0, 1);
    assert Matches(g, 8, 10, w, 7, 5, 7, 0, 1);
    assert Matches(g, 8, 10, w, 6, 5, 6, 0, 1);
    assert Matches(g, 8, 10, w, 5, 5, 5, 0, 1);
    assert Matches(g, 8, 10, w, 4, 5, 4, 0, 1);
    assert Matches(g, 8, 10, w, 3, 5, 3, 0, 1);
    assert Matches(g, 8, 10, w, 2, 5, 2, 0, 1);
  }
}
