/**
 * process_and_save_char and extract_list_characters: cut the word list into
 * word lines, each line into ink blobs, and each blob into glyphs, splitting
 * touching letters at the emptiest column of the blob's middle half.
 */
module Glyphs {
  import opened Geometry
  import opened BinaryImage

  /** Padding added around every saved glyph. */
  const PADDING := 2
  /** Initial `min_density`: columns this dense never become the split column. */
  const NO_DENSITY := 99999
  /** Word lines of this height or less are ignored. */
  const MIN_WORD_HEIGHT := 5

  /** One saved glyph: its word index, its index within the word, and the padded rectangle. */
  datatype Glyph = Glyph(word: int, index: int, rect: Rect)

  /** The column ink counts of a blob (local_proj). */
  function ColumnInks(img: Image, rect: Rect): (proj: seq<int>)
    requires rect.w >= 0 && rect.h >= 0
    ensures |proj| == rect.w
  {
    seq(rect.w, x => InkInColumn(img, rect.x + x, rect.y, rect.h))
  }

  /** The blob is narrow: `w / h < 1.1`, that is 10w < 11h. */
  predicate Narrow(rect: Rect)
  {
    10 * rect.w < 11 * rect.h
  }

  /**
   * The position the search over [lo, hi) settles on, scanning left to
   * right and keeping a strictly smaller count: -1, or a position in range.
   */
  function LeftmostMin(proj: seq<int>, lo: nat, hi: int): (b: int)
    requires hi <= |proj|
    ensures b == -1 || lo <= b < hi
    decreases hi - lo
  {
    if hi <= lo then -1
    else
      var b := LeftmostMin(proj, lo, hi - 1);
      if proj[hi - 1] < (if b == -1 then NO_DENSITY else proj[b]) then hi - 1 else b
  }

  /**
   * The search finds the leftmost least count among those under 99999, and
   * -1 exactly when every count in [lo, hi) is at least 99999.
   */
  lemma {:induction false} LeftmostMinSpec(proj: seq<int>, lo: nat, hi: int)
    requires hi <= |proj|
    ensures var b := LeftmostMin(proj, lo, hi);
      && (b == -1 <==> forall x :: lo <= x < hi ==> proj[x] >= NO_DENSITY)
      && (b != -1 ==>
            && proj[b] < NO_DENSITY
            && (forall x :: lo <= x < b ==> proj[x] > proj[b])
            && (forall x :: lo <= x < hi ==> proj[x] >= proj[b]))
    decreases hi - lo
  {
    if hi > lo {
      LeftmostMinSpec(proj, lo, hi - 1);
    }
  }

  /** The candidate split column of a wide blob: the leftmost least-ink column of [w/4, 3w/4). */
  function BestSplit(img: Image, rect: Rect): int
    requires rect.w >= 0 && rect.h >= 0
  {
    LeftmostMin(ColumnInks(img, rect), rect.w / 4, 3 * rect.w / 4)
  }

  /**
   * A blob is saved whole when it is narrow, or when the ink at its best
   * split column exceeds 15 % of its height (20m > 3h).
   */
  predicate Terminal(img: Image, rect: Rect)
    requires rect.h >= 0
  {
    Narrow(rect) ||
    (var b := BestSplit(img, rect); b != -1 && 20 * ColumnInks(img, rect)[b] > 3 * rect.h)
  }

  /**
   * The column where a wide blob is cut: its best split column, or w/2 when
   * no column qualified. It lies strictly inside the blob, so both halves are
   * narrower than the blob.
   */
  function SplitAt(img: Image, rect: Rect): (s: int)
    requires rect.h > MIN_WORD_HEIGHT && !Narrow(rect)
    ensures 0 < s < rect.w
    ensures BestSplit(img, rect) != -1 ==> s == BestSplit(img, rect)
    ensures BestSplit(img, rect) == -1 ==> s == rect.w / 2
  {
    var b := BestSplit(img, rect);
    if b == -1 then rect.w / 2 else b
  }

  /** The terminal pieces a blob is cut into, left to right, before padding. */
  function Pieces(img: Image, rect: Rect): seq<Rect>
    requires rect.h > MIN_WORD_HEIGHT
    decreases rect.w
  {
    if Terminal(img, rect) then [rect]
    else
      var s := SplitAt(img, rect);
      Pieces(img, rect.(w := s)) + Pieces(img, rect.(x := rect.x + s, w := rect.w - s))
  }

  /**
   * A blob that is not terminal is cut at `SplitAt` into a left and a right
   * part, both narrower, and yields the pieces of its left part, then those
   * of its right part.
   */
  lemma PiecesSplit(img: Image, rect: Rect) returns (left: Rect, right: Rect)
    requires rect.h > MIN_WORD_HEIGHT && !Terminal(img, rect)
    ensures left == rect.(w := SplitAt(img, rect))
    ensures right == rect.(x := rect.x + SplitAt(img, rect), w := rect.w - SplitAt(img, rect))
    ensures 0 < left.w < rect.w && 0 < right.w < rect.w
    ensures Pieces(img, rect) == Pieces(img, left) + Pieces(img, right)
  {
    var s := SplitAt(img, rect);
    left := rect.(w := s);
    right := rect.(x := rect.x + s, w := rect.w - s);
  }

  /**
   * The saved rectangle of a piece: grown by 2 px on every side, moved to
   * the image origin when it would start before it (`> 0` test), and cut at
   * the right and bottom edges of the image.
   */
  function Pad(img: Image, r: Rect): (p: Rect)
    ensures p.x == (if r.x - PADDING > 0 then r.x - PADDING else 0)
    ensures p.y == (if r.y - PADDING > 0 then r.y - PADDING else 0)
    ensures p.x + p.w <= img.w && p.y + p.h <= img.h
    ensures 0 <= r.x && r.x + r.w <= img.w ==> p.x <= r.x && r.x + r.w <= p.x + p.w
    ensures 0 <= r.y && r.y + r.h <= img.h ==> p.y <= r.y && r.y + r.h <= p.y + p.h
  {
    var x := if r.x - PADDING > 0 then r.x - PADDING else 0;
    var y := if r.y - PADDING > 0 then r.y - PADDING else 0;
    var w := r.w + 2 * PADDING;
    var h := r.h + 2 * PADDING;
    Rect(x, y, if x + w > img.w then img.w - x else w, if y + h > img.h then img.h - y else h)
  }

  /** The log entries of saving `pieces` for word `word`, numbered from `counter`. */
  function GlyphLog(img: Image, word: int, counter: int, pieces: seq<Rect>): seq<Glyph>
  {
    seq(|pieces|, k requires 0 <= k < |pieces| => Glyph(word, counter + k, Pad(img, pieces[k])))
  }

  lemma GlyphLogAppend(img: Image, word: int, counter: int, p: seq<Rect>, q: seq<Rect>)
    ensures GlyphLog(img, word, counter, p + q) ==
            GlyphLog(img, word, counter, p) + GlyphLog(img, word, counter + |p|, q)
  {
  }

  /** A terminal blob is saved whole under the current counter value. */
  method SaveWhole(img: Image, rect: Rect, word: int, counter: int) returns (log: seq<Glyph>, counter': int)
    ensures log == [Glyph(word, counter, Pad(img, rect))] && counter' == counter + 1
  {
    var x := if rect.x - PADDING > 0 then rect.x - PADDING else 0;
    var y := if rect.y - PADDING > 0 then rect.y - PADDING else 0;
    var w := rect.w + 2 * PADDING;
    var h := rect.h + 2 * PADDING;
    if x + w > img.w {
      w := img.w - x;
    }
    if y + h > img.h {
      h := img.h - y;
    }
    log := [Glyph(word, counter, Rect(x, y, w, h))];
    counter' := counter + 1;
  }

  /**
   * The cut search of process_and_save_char: the column ink counts of the
   * blob (`local_proj`), then the leftmost least count in [w/4, 3w/4).
   */
  method FindSplit(img: Image, rect: Rect) returns (best: int, minDensity: int)
    requires rect.w >= 0 && rect.h >= 0
    ensures best == BestSplit(img, rect)
    ensures minDensity == if best == -1 then NO_DENSITY else ColumnInks(img, rect)[best]
  {
    var localProj := new int[rect.w];
    var x := 0;
    while x < rect.w
      invariant 0 <= x <= rect.w
      invariant forall c :: 0 <= c < x ==> localProj[c] == ColumnInks(img, rect)[c]
    {
      localProj[x] := CountColumnInk(img, rect.x + x, rect.y, rect.h);
      x := x + 1;
    }
    best := -1;
    minDensity := NO_DENSITY;
    x := rect.w / 4;
    while x < 3 * rect.w / 4
      invariant rect.w / 4 <= x <= 3 * rect.w / 4
      invariant localProj[..] == ColumnInks(img, rect)
      invariant best == LeftmostMin(localProj[..], rect.w / 4, x)
      invariant minDensity == if best == -1 then NO_DENSITY else localProj[best]
    {
      if localProj[x] < minDensity {
        minDensity := localProj[x];
        best := x;
      }
      x := x + 1;
    }
  }

  /**
   * process_and_save_char: saves the blob's terminal pieces left to right,
   * numbering them from `counter` (the caller's `*char_counter`), and
   * returns the advanced counter.
   */
  method ProcessAndSaveChar(img: Image, rect: Rect, word: int, counter: int) returns (log: seq<Glyph>, counter': int)
    requires rect.h > MIN_WORD_HEIGHT
    ensures log == GlyphLog(img, word, counter, Pieces(img, rect))
    ensures counter' == counter + |Pieces(img, rect)|
    decreases rect.w
  {
    if 10 * rect.w < 11 * rect.h {
      WholeLog(img, rect, word, counter);
      log, counter' := SaveWhole(img, rect, word, counter);
      return;
    }
    var best, minDensity := FindSplit(img, rect);
    if best != -1 && 20 * minDensity > 3 * rect.h {
      WholeLog(img, rect, word, counter);
      log, counter' := SaveWhole(img, rect, word, counter);
      return;
    }
    assert !Terminal(img, rect);
    if best == -1 {
      best := rect.w / 2;
    }
    assert best == SplitAt(img, rect);
    var left := rect.(w := best);
    var right := rect.(x := rect.x + best, w := rect.w - best);
    var leftLog, middle := ProcessAndSaveChar(img, left, word, counter);
    var rightLog, last := ProcessAndSaveChar(img, right, word, middle);
    SplitLog(img, rect, word, counter, best, left, right, leftLog, middle, rightLog);
    log, counter' := leftLog + rightLog, last;
  }

  /**
   * The log of a cut blob is the log of its left part followed by that of
   * its right part, whose numbering continues after the left part's pieces.
   */
  lemma SplitLog(img: Image, rect: Rect, word: int, counter: int, s: int, left: Rect, right: Rect,
                 leftLog: seq<Glyph>, middle: int, rightLog: seq<Glyph>)
    requires rect.h > MIN_WORD_HEIGHT && !Terminal(img, rect) && s == SplitAt(img, rect)
    requires left == rect.(w := s) && right == rect.(x := rect.x + s, w := rect.w - s)
    requires leftLog == GlyphLog(img, word, counter, Pieces(img, left)) && middle == counter + |Pieces(img, left)|
    requires rightLog == GlyphLog(img, word, middle, Pieces(img, right))
    ensures |Pieces(img, rect)| == |Pieces(img, left)| + |Pieces(img, right)|
    ensures leftLog + rightLog == GlyphLog(img, word, counter, Pieces(img, rect))
  {
    var l, r := PiecesSplit(img, rect);
    assert l == left && r == right;
    LogConcat(img, word, counter, Pieces(img, rect), Pieces(img, left), Pieces(img, right), leftLog, middle, rightLog);
  }

  /** The logs of two consecutive runs of pieces, the second numbered on from the first, make the log of both. */
  lemma LogConcat(img: Image, word: int, counter: int, all: seq<Rect>, p: seq<Rect>, q: seq<Rect>,
                  leftLog: seq<Glyph>, middle: int, rightLog: seq<Glyph>)
    requires all == p + q
    requires leftLog == GlyphLog(img, word, counter, p) && middle == counter + |p|
    requires rightLog == GlyphLog(img, word, middle, q)
    ensures leftLog + rightLog == GlyphLog(img, word, counter, all)
  {
    GlyphLogAppend(img, word, counter, p, q);
  }

  /** The log of a terminal blob is the single entry of the padded blob. */
  lemma WholeLog(img: Image, rect: Rect, word: int, counter: int)
    requires rect.h > MIN_WORD_HEIGHT && Terminal(img, rect)
    ensures |Pieces(img, rect)| == 1
    ensures GlyphLog(img, word, counter, Pieces(img, rect)) == [Glyph(word, counter, Pad(img, rect))]
  {
    PiecesWhole(img, rect);
  }

  /** A terminal blob is its own single piece. */
  lemma PiecesWhole(img: Image, rect: Rect)
    requires rect.h > MIN_WORD_HEIGHT && Terminal(img, rect)
    ensures Pieces(img, rect) == [rect]
  {
  }

  /**
   * The pieces of a blob tile its columns: the first starts at its left
   * edge, each starts where the previous one ends, and the last ends at its
   * right edge.
   */
  lemma {:induction false} PiecesPartition(img: Image, rect: Rect)
    requires rect.h > MIN_WORD_HEIGHT
    ensures |Pieces(img, rect)| >= 1
    ensures Pieces(img, rect)[0].x == rect.x
    ensures Last(Pieces(img, rect)).x + Last(Pieces(img, rect)).w == rect.x + rect.w
    ensures forall k :: 0 <= k < |Pieces(img, rect)| - 1 ==>
              Pieces(img, rect)[k].x + Pieces(img, rect)[k].w == Pieces(img, rect)[k + 1].x
    decreases rect.w
  {
    var ps := Pieces(img, rect);
    if Terminal(img, rect) {
      PiecesWhole(img, rect);
      assert Last(ps) == rect;
    } else {
      var left, right := PiecesSplit(img, rect);
      PiecesPartition(img, left);
      PiecesPartition(img, right);
      var l, r := Pieces(img, left), Pieces(img, right);
      TileConcat(l, r);
      assert ps == l + r;
      assert Last(ps) == Last(r);
    }
  }

  function Last(rs: seq<Rect>): Rect
    requires |rs| > 0
  {
    rs[|rs| - 1]
  }

  /** Two tilings that meet make one tiling. */
  lemma TileConcat(l: seq<Rect>, r: seq<Rect>)
    requires |l| >= 1 && |r| >= 1
    requires Last(l).x + Last(l).w == r[0].x
    requires forall k :: 0 <= k < |l| - 1 ==> l[k].x + l[k].w == l[k + 1].x
    requires forall k :: 0 <= k < |r| - 1 ==> r[k].x + r[k].w == r[k + 1].x
    ensures (l + r)[0] == l[0] && Last(l + r) == Last(r)
    ensures forall k :: 0 <= k < |l + r| - 1 ==> (l + r)[k].x + (l + r)[k].w == (l + r)[k + 1].x
  {
    var ps: seq<Rect> := l + r;
    forall k | 0 <= k < |ps| - 1
      ensures ps[k].x + ps[k].w == ps[k + 1].x
    {
      if k < |l| - 1 {
        assert ps[k] == l[k] && ps[k + 1] == l[k + 1];
      } else if k == |l| - 1 {
        assert ps[k] == l[k] && ps[k + 1] == r[0];
      } else {
        assert ps[k] == r[k - |l|] && ps[k + 1] == r[k - |l| + 1];
      }
    }
  }

  /** Every piece keeps the blob's rows and is terminal: it was saved without a further cut. */
  lemma {:induction false} PiecesTerminal(img: Image, rect: Rect)
    requires rect.h > MIN_WORD_HEIGHT
    ensures forall k :: 0 <= k < |Pieces(img, rect)| ==>
              Pieces(img, rect)[k].y == rect.y && Pieces(img, rect)[k].h == rect.h && Terminal(img, Pieces(img, rect)[k])
    decreases rect.w
  {
    if Terminal(img, rect) {
      PiecesWhole(img, rect);
    } else {
      var left, right := PiecesSplit(img, rect);
      PiecesTerminal(img, left);
      PiecesTerminal(img, right);
    }
  }

  /** Pieces of a blob of positive width have positive width. */
  lemma {:induction false} PiecesNonEmpty(img: Image, rect: Rect)
    requires rect.h > MIN_WORD_HEIGHT && rect.w > 0
    ensures forall k :: 0 <= k < |Pieces(img, rect)| ==> Pieces(img, rect)[k].w > 0
    decreases rect.w
  {
    if Terminal(img, rect) {
      PiecesWhole(img, rect);
    } else {
      var left, right := PiecesSplit(img, rect);
      PiecesNonEmpty(img, left);
      PiecesNonEmpty(img, right);
    }
  }

  /** A row of the list holds ink (h_proj[y] > 0). */
  ghost function RowFlags(img: Image, list: Rect): (f: seq<bool>)
    requires list.w >= 0 && list.h >= 0
    ensures |f| == list.h
  {
    seq(list.h, y => InkInRow(img, list.y + y, list.x, list.w) > 0)
  }

  /** Keeps the runs ended before the bottom edge whose height exceeds 5. */
  function ClosedWords(runs: seq<Run>, h: int): (ws: seq<Run>)
    ensures forall k :: 0 <= k < |ws| ==> ws[k].end < h && ws[k].end - ws[k].start > MIN_WORD_HEIGHT
  {
    if |runs| == 0 then []
    else
      var last := runs[|runs| - 1];
      ClosedWords(runs[..|runs| - 1], h) +
      (if last.end < h && last.end - last.start > MIN_WORD_HEIGHT then [last] else [])
  }

  /** The kept runs are exactly the runs ended before `h` and taller than 5, in their order. */
  lemma {:induction false} ClosedWordsSpec(runs: seq<Run>, h: int)
    ensures forall r :: r in ClosedWords(runs, h) <==> r in runs && r.end < h && r.end - r.start > MIN_WORD_HEIGHT
  {
    if |runs| > 0 {
      var prefix := runs[..|runs| - 1];
      ClosedWordsSpec(prefix, h);
      assert runs == prefix + [runs[|runs| - 1]];
    }
  }

  /** The word lines extract_list_characters processes, top to bottom. */
  ghost function Words(img: Image, list: Rect): seq<Run>
    requires list.w >= 0 && list.h >= 0
  {
    ClosedWords(Runs(RowFlags(img, list)), list.h)
  }

  /** A column of a word line holds ink (v_proj[x] > 0). */
  ghost function ColumnFlags(img: Image, list: Rect, word: Run): (f: seq<bool>)
    requires list.w >= 0 && word.start <= word.end
    ensures |f| == list.w
  {
    seq(list.w, x => InkInColumn(img, list.x + x, list.y + word.start, word.end - word.start) > 0)
  }

  /** The rectangle of one blob (run of ink columns) of a word line. */
  function BlobRect(list: Rect, word: Run, blob: Run): Rect
  {
    Rect(list.x + blob.start, list.y + word.start, blob.end - blob.start, word.end - word.start)
  }

  /** The pieces of the given blobs of a word line, blob after blob. */
  function BlobPieces(img: Image, list: Rect, word: Run, blobs: seq<Run>): seq<Rect>
    requires word.end - word.start > MIN_WORD_HEIGHT
  {
    if |blobs| == 0 then []
    else BlobPieces(img, list, word, blobs[..|blobs| - 1]) + Pieces(img, BlobRect(list, word, blobs[|blobs| - 1]))
  }

  /** What one word line saves: all its pieces, numbered from 0. */
  ghost function WordLog(img: Image, list: Rect, word: Run, wordIdx: int): seq<Glyph>
    requires list.w >= 0 && word.end - word.start > MIN_WORD_HEIGHT
  {
    GlyphLog(img, wordIdx, 0, BlobPieces(img, list, word, Runs(ColumnFlags(img, list, word))))
  }

  /** What a sequence of word lines saves, the k-th tagged with word index k. */
  ghost function WordsLog(img: Image, list: Rect, words: seq<Run>): seq<Glyph>
    requires list.w >= 0
    requires forall k :: 0 <= k < |words| ==> words[k].end - words[k].start > MIN_WORD_HEIGHT
  {
    if |words| == 0 then []
    else WordsLog(img, list, words[..|words| - 1]) + WordLog(img, list, words[|words| - 1], |words| - 1)
  }

  /** The column ink counts of a word line (v_proj), as ink flags: v_proj[x] > 0. */
  method WordColumns(img: Image, list: Rect, word: Run) returns (vProj: array<nat>)
    requires list.w >= 0 && word.start <= word.end
    ensures fresh(vProj) && vProj.Length == list.w
    ensures forall c :: 0 <= c < list.w ==> ColumnFlags(img, list, word)[c] == (vProj[c] > 0)
  {
    vProj := new nat[list.w];
    var x := 0;
    while x < list.w
      invariant 0 <= x <= list.w
      invariant forall c :: 0 <= c < x ==> vProj[c] == InkInColumn(img, list.x + c, list.y + word.start, word.end - word.start)
    {
      vProj[x] := CountColumnInk(img, list.x + x, list.y + word.start, word.end - word.start);
      x := x + 1;
    }
  }

  /** Saves every blob of one word line, with `char_counter` restarted at 0. */
  method ProcessWord(img: Image, list: Rect, word: Run, wordIdx: int) returns (log: seq<Glyph>)
    requires list.w >= 0 && word.end - word.start > MIN_WORD_HEIGHT
    ensures log == WordLog(img, list, word, wordIdx)
  {
    var vProj := WordColumns(img, list, word);
    log := SaveBlobs(img, list, word, wordIdx, ColumnFlags(img, list, word), vProj);
  }

  /**
   * The blob scan of a word line: each maximal run of inked columns, one
   * reaching the right edge included, goes to process_and_save_char in turn.
   */
  method SaveBlobs(img: Image, list: Rect, word: Run, wordIdx: int, ghost flags: seq<bool>, vProj: array<nat>)
    returns (log: seq<Glyph>)
    requires list.w >= 0 && word.end - word.start > MIN_WORD_HEIGHT
    requires |flags| == vProj.Length == list.w
    requires forall c :: 0 <= c < list.w ==> flags[c] == (vProj[c] > 0)
    ensures log == GlyphLog(img, wordIdx, 0, BlobPieces(img, list, word, Runs(flags)))
  {
    var inChar := false;
    var charStart := 0;
    var charCounter := 0;
    ghost var done: seq<Run> := [];
    log := [];
    ScanBegin(flags);
    var x := 0;
    while x < list.w
      invariant Scanned(flags, done, inChar, charStart, x)
      invariant charCounter == |BlobPieces(img, list, word, done)|
      invariant log == GlyphLog(img, wordIdx, 0, BlobPieces(img, list, word, done))
    {
      inChar, charStart, charCounter, log, done :=
        ScanColumn(img, list, word, wordIdx, flags, vProj[x] > 0, x, inChar, charStart, charCounter, log, done);
      x := x + 1;
    }
    log := SaveLastBlob(img, list, word, wordIdx, flags, inChar, charStart, charCounter, log, done);
  }

  /** One column of the blob scan: an inked column opens or extends a blob, a blank column saves it. */
  method ScanColumn(img: Image, list: Rect, word: Run, wordIdx: int, ghost flags: seq<bool>, ink: bool, x: int,
                    inChar: bool, charStart: int, charCounter: int, log: seq<Glyph>, ghost done: seq<Run>)
    returns (inChar': bool, charStart': int, charCounter': int, log': seq<Glyph>, ghost done': seq<Run>)
    requires word.end - word.start > MIN_WORD_HEIGHT
    requires 0 <= x < |flags| && ink == flags[x]
    requires Scanned(flags, done, inChar, charStart, x)
    requires charCounter == |BlobPieces(img, list, word, done)|
    requires log == GlyphLog(img, wordIdx, 0, BlobPieces(img, list, word, done))
    ensures Scanned(flags, done', inChar', charStart', x + 1)
    ensures charCounter' == |BlobPieces(img, list, word, done')|
    ensures log' == GlyphLog(img, wordIdx, 0, BlobPieces(img, list, word, done'))
  {
    inChar', charStart', charCounter', log', done' := inChar, charStart, charCounter, log, done;
    if ink {
      ScanSet(flags, done, inChar, charStart, x);
      if !inChar {
        inChar', charStart' := true, x;
      }
    } else {
      ScanUnset(flags, done, inChar, charStart, x);
      if inChar {
        log', charCounter' := SaveBlob(img, list, word, wordIdx, done, Run(charStart, x), log, charCounter);
        done', inChar' := done + [Run(charStart, x)], false;
      }
    }
  }

  /** The end of the blob scan: a blob reaching the right edge of the list is saved too. */
  method SaveLastBlob(img: Image, list: Rect, word: Run, wordIdx: int, ghost flags: seq<bool>,
                      inChar: bool, charStart: int, charCounter: int, log: seq<Glyph>, ghost done: seq<Run>)
    returns (log': seq<Glyph>)
    requires word.end - word.start > MIN_WORD_HEIGHT && |flags| == list.w
    requires Scanned(flags, done, inChar, charStart, list.w)
    requires charCounter == |BlobPieces(img, list, word, done)|
    requires log == GlyphLog(img, wordIdx, 0, BlobPieces(img, list, word, done))
    ensures log' == GlyphLog(img, wordIdx, 0, BlobPieces(img, list, word, Runs(flags)))
  {
    ScanEnd(flags, done, inChar, charStart);
    if inChar {
      assert Runs(flags) == done + [Run(charStart, list.w)];
      var counter;
      log', counter := SaveBlob(img, list, word, wordIdx, done, Run(charStart, list.w), log, charCounter);
    } else {
      assert Runs(flags) == done + [];
      assert Runs(flags) == done;
      log' := log;
    }
  }

  /** One more blob appends its pieces' log entries, numbered after the earlier ones. */
  lemma BlobStep(img: Image, list: Rect, word: Run, wordIdx: int, done: seq<Run>, blob: Run,
                 log: seq<Glyph>, counter: int, saved: seq<Glyph>)
    requires word.end - word.start > MIN_WORD_HEIGHT
    requires log == GlyphLog(img, wordIdx, 0, BlobPieces(img, list, word, done))
    requires counter == |BlobPieces(img, list, word, done)|
    requires saved == GlyphLog(img, wordIdx, counter, Pieces(img, BlobRect(list, word, blob)))
    ensures log + saved == GlyphLog(img, wordIdx, 0, BlobPieces(img, list, word, done + [blob]))
    ensures counter + |Pieces(img, BlobRect(list, word, blob))| == |BlobPieces(img, list, word, done + [blob])|
  {
    assert (done + [blob])[..|done|] == done;
    GlyphLogAppend(img, wordIdx, 0, BlobPieces(img, list, word, done), Pieces(img, BlobRect(list, word, blob)));
  }

  /**
   * Hands one blob of a word line (columns [blob.start, blob.end)) to
   * process_and_save_char with the word's running `char_counter`.
   */
  method SaveBlob(img: Image, list: Rect, word: Run, wordIdx: int, ghost done: seq<Run>, blob: Run,
                  log: seq<Glyph>, counter: int) returns (log': seq<Glyph>, counter': int)
    requires word.end - word.start > MIN_WORD_HEIGHT
    requires log == GlyphLog(img, wordIdx, 0, BlobPieces(img, list, word, done))
    requires counter == |BlobPieces(img, list, word, done)|
    ensures log' == GlyphLog(img, wordIdx, 0, BlobPieces(img, list, word, done + [blob]))
    ensures counter' == |BlobPieces(img, list, word, done + [blob])|
  {
    var saved;
    saved, counter' := ProcessAndSaveChar(img, BlobRect(list, word, blob), wordIdx, counter);
    BlobStep(img, list, word, wordIdx, done, blob, log, counter, saved);
    log' := log + saved;
  }

  /** Saves one more word line under the current word count, which then advances. */
  method SaveWord(img: Image, list: Rect, ghost words: seq<Run>, w: Run, log: seq<Glyph>, count: int)
    returns (log': seq<Glyph>, count': int)
    requires list.w >= 0 && w.end - w.start > MIN_WORD_HEIGHT
    requires forall k :: 0 <= k < |words| ==> words[k].end - words[k].start > MIN_WORD_HEIGHT
    requires log == WordsLog(img, list, words) && count == |words|
    ensures log' == WordsLog(img, list, words + [w]) && count' == |words + [w]|
  {
    var saved := ProcessWord(img, list, w, count);
    WordsLogStep(img, list, words, w);
    log', count' := log + saved, count + 1;
  }

  /** One more word line appends its own log, tagged with the number of earlier lines. */
  lemma WordsLogStep(img: Image, list: Rect, words: seq<Run>, w: Run)
    requires list.w >= 0 && w.end - w.start > MIN_WORD_HEIGHT
    requires forall k :: 0 <= k < |words| ==> words[k].end - words[k].start > MIN_WORD_HEIGHT
    ensures WordsLog(img, list, words + [w]) == WordsLog(img, list, words) + WordLog(img, list, w, |words|)
  {
    assert (words + [w])[..|words|] == words;
  }

  /** One more run of rows adds a word line only when it is closed and taller than 5 rows. */
  lemma WordStep(runs: seq<Run>, r: Run, h: int)
    ensures ClosedWords(runs + [r], h) ==
            ClosedWords(runs, h) + (if r.end < h && r.end - r.start > MIN_WORD_HEIGHT then [r] else [])
  {
    assert (runs + [r])[..|runs|] == runs;
  }

  /**
   * extract_list_characters: nothing for an empty list area; otherwise the
   * number of processed word lines and everything they save, word after word.
   */
  method ExtractListCharacters(img: Image, list: Rect) returns (wordCount: int, log: seq<Glyph>)
    ensures list.w <= 0 || list.h <= 0 ==> wordCount == 0 && log == []
    ensures list.w > 0 && list.h > 0 ==>
              wordCount == |Words(img, list)| && log == WordsLog(img, list, Words(img, list))
  {
    if list.w <= 0 || list.h <= 0 {
      return 0, [];
    }
    var hProj := ListRows(img, list);
    wordCount, log := SaveWords(img, list, RowFlags(img, list), hProj);
  }

  /** The row ink counts of the list area (h_proj), as ink flags: h_proj[y] > 0. */
  method ListRows(img: Image, list: Rect) returns (hProj: array<nat>)
    requires list.w >= 0 && list.h >= 0
    ensures fresh(hProj) && hProj.Length == list.h
    ensures forall r :: 0 <= r < list.h ==> RowFlags(img, list)[r] == (hProj[r] > 0)
  {
    hProj := new nat[list.h];
    var y := 0;
    while y < list.h
      invariant 0 <= y <= list.h
      invariant forall r :: 0 <= r < y ==> hProj[r] == InkInRow(img, list.y + r, list.x, list.w)
    {
      hProj[y] := 0;
      var x := 0;
      while x < list.w
        invariant 0 <= x <= list.w
        invariant forall r :: 0 <= r < y ==> hProj[r] == InkInRow(img, list.y + r, list.x, list.w)
        invariant hProj[y] == InkInRow(img, list.y + y, list.x, x)
      {
        if GetPixelBinary(img, list.x + x, list.y + y) == 0 {
          hProj[y] := hProj[y] + 1;
        }
        x := x + 1;
      }
      y := y + 1;
    }
  }

  /**
   * The word-line scan: a run of inked rows ended by a blank row is a word
   * line when it is taller than 5 rows; its blobs are saved under the
   * current word count, which then advances.
   */
  method SaveWords(img: Image, list: Rect, ghost flags: seq<bool>, hProj: array<nat>) returns (wordCount: int, log: seq<Glyph>)
    requires list.w >= 0 && list.h >= 0
    requires |flags| == hProj.Length == list.h
    requires forall r :: 0 <= r < list.h ==> flags[r] == (hProj[r] > 0)
    ensures wordCount == |ClosedWords(Runs(flags), list.h)|
    ensures log == WordsLog(img, list, ClosedWords(Runs(flags), list.h))
  {
    var inWord := false;
    var wordStart := 0;
    wordCount := 0;
    log := [];
    ghost var done: seq<Run> := [];
    ghost var words: seq<Run> := [];
    ScanBegin(flags);
    var y := 0;
    while y < list.h
      invariant Scanned(flags, done, inWord, wordStart, y)
      invariant words == ClosedWords(done, list.h)
      invariant wordCount == |words| && log == WordsLog(img, list, words)
    {
      inWord, wordStart, wordCount, log, done, words :=
        ScanRow(img, list, flags, hProj[y] > 0, y, inWord, wordStart, wordCount, log, done, words);
      y := y + 1;
    }
    WordsFinal(img, list, flags, done, inWord, wordStart, words, wordCount, log);
  }

  /** When the scan reaches the bottom edge, the word lines met so far are all the word lines. */
  lemma WordsFinal(img: Image, list: Rect, flags: seq<bool>, done: seq<Run>, inWord: bool, wordStart: int,
                   words: seq<Run>, wordCount: int, log: seq<Glyph>)
    requires list.w >= 0 && |flags| == list.h
    requires Scanned(flags, done, inWord, wordStart, list.h)
    requires words == ClosedWords(done, list.h)
    requires wordCount == |words| && log == WordsLog(img, list, words)
    ensures wordCount == |ClosedWords(Runs(flags), list.h)|
    ensures log == WordsLog(img, list, ClosedWords(Runs(flags), list.h))
  {
    ScanEnd(flags, done, inWord, wordStart);
    WordsEnd(Runs(flags), done, inWord, wordStart, list.h);
  }

  /** One row of the word-line scan: an inked row opens or extends a run, a blank row closes it. */
  method ScanRow(img: Image, list: Rect, ghost flags: seq<bool>, ink: bool, y: int,
                 inWord: bool, wordStart: int, wordCount: int, log: seq<Glyph>,
                 ghost done: seq<Run>, ghost words: seq<Run>)
    returns (inWord': bool, wordStart': int, wordCount': int, log': seq<Glyph>,
             ghost done': seq<Run>, ghost words': seq<Run>)
    requires list.w >= 0 && |flags| == list.h && 0 <= y < list.h && ink == flags[y]
    requires Scanned(flags, done, inWord, wordStart, y)
    requires words == ClosedWords(done, list.h)
    requires wordCount == |words| && log == WordsLog(img, list, words)
    ensures Scanned(flags, done', inWord', wordStart', y + 1)
    ensures words' == ClosedWords(done', list.h)
    ensures wordCount' == |words'| && log' == WordsLog(img, list, words')
  {
    inWord', wordStart', wordCount', log', done', words' := inWord, wordStart, wordCount, log, done, words;
    if ink {
      ScanSet(flags, done, inWord, wordStart, y);
      if !inWord {
        inWord', wordStart' := true, y;
      }
    } else {
      ScanUnset(flags, done, inWord, wordStart, y);
      if inWord {
        log', wordCount', words' := CloseWord(img, list, done, words, Run(wordStart, y), log, wordCount);
        done', inWord' := done + [Run(wordStart, y)], false;
      }
    }
  }

  /** A run still open at the bottom edge is not a word line. */
  lemma WordsEnd(runs: seq<Run>, done: seq<Run>, open: bool, start: int, h: int)
    requires runs == done + (if open then [Run(start, h)] else [])
    ensures ClosedWords(runs, h) == ClosedWords(done, h)
  {
    if open {
      WordStep(done, Run(start, h), h);
      assert ClosedWords(done, h) + [] == ClosedWords(done, h);
    } else {
      assert runs == done;
    }
  }

  /** A run of rows closed by a blank row: saved as the next word line when it is taller than 5 rows. */
  method CloseWord(img: Image, list: Rect, ghost done: seq<Run>, ghost words: seq<Run>, r: Run, log: seq<Glyph>, count: int)
    returns (log': seq<Glyph>, count': int, ghost words': seq<Run>)
    requires list.w >= 0 && r.end < list.h
    requires words == ClosedWords(done, list.h)
    requires log == WordsLog(img, list, words) && count == |words|
    ensures words' == ClosedWords(done + [r], list.h)
    ensures log' == WordsLog(img, list, words') && count' == |words'|
  {
    WordStep(done, r, list.h);
    if r.end - r.start > MIN_WORD_HEIGHT {
      log', count' := SaveWord(img, list, words, r, log, count);
      words' := words + [r];
    } else {
      log', count', words' := log, count, words;
    }
  }

  /**
   * The processed word lines are exactly the maximal runs of inked rows that
   * a blank row ends (so a run touching the bottom edge is never processed)
   * and that are taller than 5 rows, in top-to-bottom order.
   */
  lemma WordsAreClosedLines(img: Image, list: Rect)
    requires list.w >= 0 && list.h >= 0
    ensures forall k :: 0 <= k < |Words(img, list)| ==>
              var r := Words(img, list)[k];
              MaximalRun(RowFlags(img, list), r) && r.end < list.h && r.end - r.start > MIN_WORD_HEIGHT
    ensures forall r :: MaximalRun(RowFlags(img, list), r) && r.end < list.h && r.end - r.start > MIN_WORD_HEIGHT ==>
              r in Words(img, list)
  {
    var f := RowFlags(img, list);
    RunsMaximal(f);
    ClosedWordsSpec(Runs(f), list.h);
    forall r | MaximalRun(f, r) && r.end < list.h && r.end - r.start > MIN_WORD_HEIGHT
      ensures r in Words(img, list)
    {
      RunsFromCover(f, 0, r.start);
      var k :| 0 <= k < |Runs(f)| && Runs(f)[k].start <= r.start < Runs(f)[k].end;
      MaximalRunsEqual(f, Runs(f)[k], r);
    }
  }

  /** Two maximal runs that share a flag are the same run. */
  lemma MaximalRunsEqual(f: seq<bool>, a: Run, b: Run)
    requires MaximalRun(f, a) && MaximalRun(f, b)
    requires a.start <= b.start < a.end
    ensures a == b
  {
  }

  /** Every entry of the list's log carries the index of an existing word line. */
  lemma {:induction false} WordsLogTags(img: Image, list: Rect, words: seq<Run>)
    requires list.w >= 0
    requires forall k :: 0 <= k < |words| ==> words[k].end - words[k].start > MIN_WORD_HEIGHT
    ensures forall e :: e in WordsLog(img, list, words) ==> 0 <= e.word < |words| && 0 <= e.index
  {
    if |words| > 0 {
      WordsLogTags(img, list, words[..|words| - 1]);
    }
  }
}
