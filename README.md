# OCR-ML core, modelled in Dafny

OCR-ML reads a photographed word-search puzzle. The model covers the integer logic between the pixels and the answers, in five parts:

- **Layout and glyph segmentation** (`grid_extractor.c`, both revisions):
  - split the page into a grid side and a word-list side at the best blank gap;
  - find the grid's solid horizontal and vertical lines and cut the cells between them;
  - cut the list into word lines, the lines into ink blobs, and wide blobs into glyphs.
- **Thresholding and bitmap packing** (the three `grayscale.c` / `img_process.c` copies):
  - Otsu's threshold and the two fixed thresholds;
  - black-and-white conversion;
  - bit helpers;
  - packing a 1-bit bitmap (`path_to_bitmap`) or a byte-per-pixel buffer (`path_to_bytes`).
- **Connected-component location** (`locating.c`):
  - ink projections and the grid bounds derived from them;
  - the 4-connected flood fill with its bounding box;
  - one fill per character.
- **Word-search solver** (`solver.c`, both revisions): the directional scan that records the first match in the global `word_coordinates`.
- **Training control** (`neural.c`):
  - the epoch loop with its early stop after three epochs without improvement and the stop flag;
  - the one-hot target;
  - the letter `neural_find_logic` answers.

## How the model is organised

One module per concern:

- `Geometry`: rectangles, and runs of set flags with the left-to-right scan state shared by every run-detecting loop.
- `BinaryImage`: `get_pixel_binary` and ink counts.
- `Layout`: `split_grid_and_list`.
- `GridCells`: `is_line_solid` and `extract_cells`.
- `Glyphs`: `process_and_save_char` and `extract_list_characters`.
- `Bits`, `Threshold` and `Packing`: the grayscale files.
- `Components`: the 4-connected BLACK components of a surface and the state of `extract_characters`' scan, stated on rows of values.
- `Locating`: `locating.c`.
- `Solver`: both solver files.
- `Training`: `neural.c`.

The code that changes state in place is imperative Dafny:

- pixel buffers and bitmaps are arrays;
- the flood fill rewrites an `array2` and grows a `BoundingBox` object;
- the solver's global record is a `WordCoordinates` object whose fields the search methods update.

Each loop is a `while`/`for` with invariants. Each method's postcondition ties its result or the new state to a specification function of the inputs (a count, a component, a smallest box), and that function's properties are proved as lemmas. Where a source file saves an image, the model appends a tagged rectangle to an output log instead.

Both `grid_extractor.c` files have the same `get_pixel_binary`, `split_grid_and_list`, `is_line_solid` and `extract_cells`, so these are modelled once and their rows cite both files. The same holds for:

- the three identical `apply_threshold`;
- the two `change_bit` families;
- the two `path_to_bitmap`;
- the two solvers.

Floating-point comparisons whose operands are integers are exact comparisons of rationals:

- `black_pixels > height * 0.01` becomes `100 * b > h`;
- `aspect_ratio < 1.1` becomes `10 * w < 11 * h`;
- `min_density > rect.h * 0.15` becomes `20 * m > 3 * h`;
- `x < width * 0.9` becomes `10 * x < 9 * width`;
- `grid_rect.w * 0.10` becomes `w / 10`.

The density score and Otsu's variance are computed in `real`.

## Model

| member | source | states |
|---|---|---|
| BinaryImage.GetPixelBinary | src/main_program/grid_extractor.c:10-21 | the probe is 0 (ink) exactly when the pixel is on the surface and its red value is at most 128, and 1 otherwise, so off-surface reads are white; the same code is at src/image_processing/grid_extractor.c:10-21 |
| BinaryImage.CountColumnInk | src/main_program/grid_extractor.c:60-65 | the loop's count equals the number of ink pixels of the column segment |
| BinaryImage.CountColumnsInk | src/main_program/grid_extractor.c:115-123 | the nested loops count the ink of a block of columns, as the side totals do |
| Geometry.RunEnd | src/main_program/grid_extractor.c:153-170 | the run that starts at `i` ends at the first unset flag (or the end), and every flag before that is set |
| Geometry.RunsMaximal | src/main_program/grid_extractor.c:481-497 | the runs the scans detect are maximal, left to right and separated, and every set flag lies in one of them |
| Geometry.ScanSet | src/main_program/grid_extractor.c:483-490 | an inked row opens a run when none is open and otherwise extends it |
| Geometry.ScanUnset | src/main_program/grid_extractor.c:491-497 | a blank row closes the open run `[start, y)`, or is skipped |
| Geometry.ScanEnd | src/main_program/grid_extractor.c:246-252 | at the end of the scan the closed runs, plus the open run cut at the edge, are exactly the maximal runs |
| Layout.GapAt | src/main_program/grid_extractor.c:56-71 | the band test returns true exactly when every column of x..x+4 that is on the image has at most 1 % of the height in ink |
| Layout.RatioSpec | src/main_program/grid_extractor.c:91-96 | the score is 0 or above 1. It is positive exactly when both window counts are positive and differ, and then it is larger over smaller |
| Layout.GapsFromSound | src/main_program/grid_extractor.c:53-104 | every visited gap is a gap of the central zone `10x < 9w`, and visited gaps are at least 6 columns apart (the `x += 5` skip) |
| Layout.GapsFromComplete | src/main_program/grid_extractor.c:53-104 | a gap of the zone is visited unless it lies within the 5 columns skipped after a visited gap |
| Layout.FirstBestStep | src/main_program/grid_extractor.c:98-102 | a new gap replaces the best exactly when its score is strictly greater, so the kept gap is the first of greatest score |
| Layout.ScoreGap | src/main_program/grid_extractor.c:75-102 | scoring and comparing one gap keeps the first-best invariant of the scan |
| Layout.ChooseSplit | src/main_program/grid_extractor.c:49-104 | the split column is -1 exactly when no gap is visited, and otherwise it is the first visited gap of greatest score; the same code is at src/image_processing/grid_extractor.c:53-104 |
| Layout.Sides | src/main_program/grid_extractor.c:114-134 | both rectangles are full height, disjoint, meet at the split and cover the width. The grid side has at least as much ink, and a tie puts the grid on the left |
| Layout.SplitGridAndList | src/main_program/grid_extractor.c:42-135 | with no gap the grid is the whole image and the list is empty. Otherwise the image is cut at the first best gap and the sides are assigned by total ink; the same code is at src/image_processing/grid_extractor.c:107-134 |
| GridCells.IsLineSolid | src/main_program/grid_extractor.c:142-181 | the line is solid exactly when it holds more than `limit / 8` consecutive ink pixels; the same code is at src/image_processing/grid_extractor.c:141-172 |
| GridCells.Projections | src/main_program/grid_extractor.c:192-205 | `h_proj[y]` and `v_proj[x]` are the ink counts of row y and column x of the grid area |
| GridCells.CandidateFlags | src/main_program/grid_extractor.c:216-262 | a row (column) is a candidate when its count exceeds a tenth of the width (height) and it is solid; columns left of x = 5 never are |
| GridCells.MergeLines | src/main_program/grid_extractor.c:219-252 | the kept line positions are the deduplicated centers of the maximal runs of candidates |
| GridCells.Push | src/main_program/grid_extractor.c:237-241 | a center is appended only when the buffer is not full and it lies more than 15 px after the last kept line |
| GridCells.DedupSnoc | src/main_program/grid_extractor.c:232-243 | each closed run adds at most its own center to the kept lines |
| GridCells.DedupShape | src/main_program/grid_extractor.c:207-287 | the kept lines are at most 100, strictly increasing with gaps over 15, and each lies inside its run |
| GridCells.LinesInRange | src/image_processing/grid_extractor.c:231-254 | line positions lie inside the scanned axis and, for columns, not left of the 5-column margin; the same code is at src/main_program/grid_extractor.c:254-287 |
| GridCells.ExtractedLinesShape | src/main_program/grid_extractor.c:207-287 | `h_lines` lie in `[0, h)` and `v_lines` in `[5, w)`; both are at most 100, strictly increasing, with gaps over 15; the same code is at src/image_processing/grid_extractor.c:193-254 |
| GridCells.CellRect | src/main_program/grid_extractor.c:306-314 | a cell starts 2 px after its left and top lines and ends 2 px before the next ones |
| GridCells.Clip | src/main_program/grid_extractor.c:322-326 | clipping keeps the origin, never grows the size, ends inside the image and changes nothing already inside |
| GridCells.SlotsProduct | src/main_program/grid_extractor.c:300-302 | the loops visit `(h_count - 1) * (v_count - 1)` adjacent line pairs |
| GridCells.CutRow | src/main_program/grid_extractor.c:302-331 | one row of pairs saves exactly its big-enough cells, clipped and tagged, left to right |
| GridCells.CutCells | src/main_program/grid_extractor.c:298-332 | the saved cells are exactly the big-enough cells of adjacent line pairs, clipped, tagged (i, j), in row-major order, and at most `(h_count - 1) * (v_count - 1)` of them; the same code is at src/image_processing/grid_extractor.c:264-292 |
| GridCells.ExtractCells | src/main_program/grid_extractor.c:185-337 | nothing for an empty area; otherwise the line lists are the merged candidate runs and the cells are those of the cutting; the same code is at src/image_processing/grid_extractor.c:176-297 |
| Glyphs.LeftmostMinSpec | src/main_program/grid_extractor.c:390-404 | the search yields the leftmost least count below 99999 in `[w/4, 3w/4)`, and -1 exactly when there is none |
| Glyphs.FindSplit | src/main_program/grid_extractor.c:378-404 | the loops compute the best split column and its density (99999 when none) |
| Glyphs.SplitAt | src/main_program/grid_extractor.c:441-449 | the cut column is the best split, or w/2 without one, and lies strictly inside the blob |
| Glyphs.PiecesSplit | src/main_program/grid_extractor.c:439-454 | a non-terminal blob yields its left part's pieces then its right part's, and both parts are narrower |
| Glyphs.PiecesWhole | src/main_program/grid_extractor.c:353-373 | a terminal blob (narrow, or too dense at the cut) is its own single piece |
| Glyphs.PiecesPartition | src/main_program/grid_extractor.c:344-455 | the pieces tile the blob's columns from left to right without gap or overlap |
| Glyphs.PiecesTerminal | src/main_program/grid_extractor.c:344-455 | every piece keeps the blob's rows and is saved without a further cut |
| Glyphs.PiecesNonEmpty | src/main_program/grid_extractor.c:441-449 | pieces of a non-empty blob are non-empty |
| Glyphs.Pad | src/main_program/grid_extractor.c:356-366 | the saved rectangle grows by 2 px per side, starts at the origin when it would start before it, ends inside the image and contains the blob |
| Glyphs.ProcessAndSaveChar | src/main_program/grid_extractor.c:344-455 | the saved log is the blob's pieces, padded and numbered from `*char_counter`, which advances by exactly their number |
| Glyphs.SplitLog | src/main_program/grid_extractor.c:451-454 | the log of a cut blob is the left log followed by the right log numbered on from it |
| Glyphs.ClosedWordsSpec | src/main_program/grid_extractor.c:493-498 | the processed lines are the runs ended before the bottom edge and taller than 5 rows |
| Glyphs.WordsAreClosedLines | src/main_program/grid_extractor.c:481-573 | the word lines are exactly the maximal runs of inked rows ended by a blank row and taller than 5 rows; a run touching the bottom edge is never processed |
| Glyphs.WordColumns | src/main_program/grid_extractor.c:502-514 | `v_proj[x] > 0` exactly when the column of the word line holds ink |
| Glyphs.SaveBlobs | src/main_program/grid_extractor.c:516-565 | every maximal run of inked columns, including one reaching the right edge, is handed in turn to the splitter, with the counter restarted at 0 |
| Glyphs.ProcessWord | src/main_program/grid_extractor.c:498-568 | one word line saves all its blobs' pieces, numbered from 0 |
| Glyphs.WordsLogStep | src/main_program/grid_extractor.c:545-568 | one more word line appends its own log, tagged with the number of earlier lines |
| Glyphs.SaveWords | src/main_program/grid_extractor.c:477-573 | `word_count` is the number of processed lines, and the log is their logs in order |
| Glyphs.ExtractListCharacters | src/main_program/grid_extractor.c:457-577 | nothing for an empty list area; otherwise the processed lines and everything they save |
| Glyphs.WordsLogTags | src/main_program/grid_extractor.c:545-568 | every saved glyph carries the index of an existing word line |
| Bits.SetBit | src/image_processing/grayscale.c:9-12 | bit n becomes 1 and the other bits are kept; a shift of 8 or more leaves the byte unchanged after the cast |
| Bits.ClearBit | src/image_processing/grayscale.c:13-16 | bit n becomes 0 and the other bits are kept |
| Bits.ChangeBit | src/image_processing/grayscale.c:17-24 | bit n becomes 1 exactly when `val != 0`, and the other seven bits are kept; the same code is at src/grayscale.c:9-20 |
| Bits.SetBitIdempotent | src/image_processing/grayscale.c:9-12 | setting a bit twice is setting it once |
| Bits.ClearBitIdempotent | src/image_processing/grayscale.c:13-16 | clearing a bit twice is clearing it once |
| Bits.ChangeBitOverwrite | src/image_processing/grayscale.c:17-24 | the last change of a bit wins |
| Bits.ChangeBitKeep | src/image_processing/grayscale.c:17-24 | changing a bit to its current value changes nothing |
| Threshold.BuildHistogram | src/image_processing/grayscale.c:61-72 | the filled array is the 256-bin histogram of the pixels |
| Threshold.HistogramTotal | src/image_processing/grayscale.c:61-72 | the bins add up to `w * h` |
| Threshold.TotalIntensity | src/image_processing/grayscale.c:75-79 | `sum` is the total intensity of the pixels |
| Threshold.VarianceNonNegative | src/image_processing/grayscale.c:101-104 | the between-class variance is never negative |
| Threshold.KeepGreater | src/image_processing/grayscale.c:106-110 | the kept threshold is the first of greatest variance among those scanned |
| Threshold.RestEmpty | src/image_processing/grayscale.c:95-97 | once the background holds every pixel no later threshold has positive variance, so the early exit loses nothing |
| Threshold.GetThreshold | src/image_processing/grayscale.c:59-115 | the result is the smallest threshold of greatest positive `wB * wF * (mB - mF)^2`, or 0 when no threshold has positive variance |
| Threshold.OtsuUnique | src/image_processing/grayscale.c:85-114 | that choice is unique |
| Threshold.TwoLevelsVariance | src/image_processing/grayscale.c:88-111 | for two intensities a < b, exactly the thresholds in `[a, b)` separate them, all with the same variance |
| Threshold.TwoLevelsThreshold | src/image_processing/grayscale.c:88-111 | an image of two intensities a < b gets threshold a, so `r > t` separates them |
| Threshold.GetThresholdFixed | src/grayscale.c:50-66 | the simplified version returns 127 whatever the image |
| Threshold.GetThresholdNetwork | src/neural_network/img_process.c:37-40 | the network's version returns 254 whatever the image |
| Threshold.ApplyThreshold | src/image_processing/grayscale.c:117-143 | same size, and each pixel becomes 255 when brighter than the threshold and 0 otherwise; the same code is at src/grayscale.c:68-90 and src/neural_network/img_process.c:42-64 |
| Threshold.ThresholdRow | src/image_processing/grayscale.c:128-140 | one row is rewritten and every other pixel is kept |
| Threshold.ThresholdedBlackWhite | src/grayscale.c:84-86 | the output is 255 exactly where `r > threshold` and 0 exactly elsewhere |
| Threshold.ThresholdIdempotent | src/image_processing/grayscale.c:138-139 | thresholding the output again at any `t < 255` changes nothing |
| Packing.AsWrittenOverflows | src/image_processing/grayscale.c:158 | the size check as written accepts a 9-pixel-wide image for a 1-byte-wide bitmap, and its pixel (8, 0) targets byte 1 of a 1-byte buffer |
| Packing.AsWrittenOverflowsAlways | src/grayscale.c:103 | whenever the size check accepts a width that is not a multiple of 8, the last pixel is written past the buffer |
| Packing.ByteInside | src/image_processing/grayscale.c:179-180 | with the corrected check every pixel's byte lies in the `h * w` buffer |
| Packing.PixelsOwnDistinctBits | src/image_processing/grayscale.c:179-180 | distinct pixels own distinct bits |
| Packing.EveryBitOwned | src/image_processing/grayscale.c:179-180 | every bit of the buffer belongs to one pixel, so packing writes all of it |
| Packing.PackedUnique | src/grayscale.c:112-123 | the packed bitmap is determined by the image, whatever the buffer held before |
| Packing.PackRow | src/grayscale.c:114-122 | pixel x sets bit `7 - x % 8` of byte `x / 8` of its row exactly when the thresholded pixel is black, and other rows are kept |
| Packing.PathToBitmap | src/image_processing/grayscale.c:145-189 | 0 (buffer untouched) when loading fails or the size does not match; otherwise 1, with every pixel packed MSB-first and its bit 1 exactly when the gray value is at most 127; the same code is at src/grayscale.c:92-130 |
| Packing.PathToBytes | src/neural_network/img_process.c:66-103 | 0 (buffer untouched) unless the image loads and is exactly h by w; otherwise 1, and byte `x + y * w` is 1 for every pixel that is not pure white and 0 for every pure white one |
| Packing.WriteBytes | src/neural_network/img_process.c:86-96 | the two loops write every one of the `h * w` bytes |
| Locating.GetPixel | src/locating.c:9-21 | the value at (x, y), or BLACK (0) off the surface |
| Locating.SetPixel | src/locating.c:24-34 | an in-range write changes exactly that pixel, and an off-surface write changes nothing |
| Locating.ComputeProjections | src/locating.c:46-61 | `proj_x[x]` gains the BLACK count of column x and `proj_y[y]` that of row y; the other entries are kept |
| Locating.ProjectionTotals | src/locating.c:46-61 | the totals added to the two arrays are equal |
| Locating.ScanAbove | src/locating.c:72-79 | the loop finds the first and the last index above the threshold, -1 when none |
| Locating.AboveUnique | src/locating.c:72-88 | first and last are determined, the first is not after the last, and one is -1 exactly when the other is |
| Locating.DetectGrid | src/locating.c:63-92 | the rectangle spans from the first to the last column above `h / 5` and from the first to the last row above `w / 5` |
| Locating.BoundingBox.Include | src/locating.c:105-116 | the box grows just enough to contain the pixel |
| Components.ConnectedSelf | src/locating.c:95-100 | only BLACK pixels are in components, and a BLACK pixel is in its own |
| Components.ClosedHoldsComponent | src/locating.c:118-121 | a set closed under BLACK neighbours that holds the start holds its whole component |
| Locating.SpreadingVisit | src/locating.c:102-121 | visiting a BLACK pixel keeps the fill's invariant and leaves fewer BLACK pixels to whiten |
| Locating.FillEnd | src/locating.c:94-122 | when nothing is pending the whitened pixels are exactly the start's component |
| Locating.FloodFill | src/locating.c:94-122 | exactly the BLACK pixels 4-connected to the start become WHITE, all others are unchanged, and the box grows just enough to contain them. From a non-BLACK or off-surface start nothing changes |
| Locating.FillStep | src/locating.c:98-121 | one visit keeps the fill state and makes progress |
| Components.ComponentKept | src/locating.c:127-130 | after whole components are whitened, a pixel that is still BLACK has the same component on the current surface as on the original one |
| Components.FreshComponent | src/locating.c:128-130 | a pixel still BLACK during the scan starts a component that the fill finds whole on the current surface and that no earlier fill touched |
| Components.LoggedSkip | src/locating.c:127-128 | passing a pixel that is no longer BLACK keeps the scan's state: every BLACK pixel before it lies in a logged component |
| Components.LoggedAdd | src/locating.c:128-137 | logging the component of a still-BLACK pixel with its smallest box keeps the log in row-major order, its components disjoint and each start the first pixel of its component |
| Components.ScanComplete | src/locating.c:126-140 | once every pixel is passed, the logged components together are exactly the BLACK pixels |
| Locating.FillFrom | src/locating.c:128-131 | the fill from a still-BLACK pixel whitens exactly its original component, which no earlier fill touched, and the box is that component's smallest box |
| Locating.ExtractAt | src/locating.c:128-137 | one pixel of the scan keeps its state: the zone is the original with the logged components whitened |
| Locating.ExtractRow | src/locating.c:127-139 | one row of the scan keeps its state |
| Locating.ExtractCharacters | src/locating.c:125-142 | one box per 4-connected BLACK component, in the row-major order of the components' first pixels; each box is the smallest box of its component; the components are pairwise disjoint and together are exactly the BLACK pixels; every BLACK pixel becomes WHITE and the others are unchanged |
| Solver.Along | src/main_program/solver.c:32-33 | moving k steps of d from x lands on `x + k * d` |
| Solver.WordCoordinates.constructor | src/main_program/solver.c:19-24 | the global starts at all -1 |
| Solver.WordCoordinates.GoDirections | src/main_program/solver.c:26-40 | the end is set to the last letter's cell exactly when every remaining letter matches in bounds along (i, j); otherwise the record is unchanged; the same code is at src/solver.c:21-38 |
| Solver.MatchesMeaning | src/main_program/solver.c:30-35 | the loop's condition means that every remaining letter lies in bounds, one step apart |
| Solver.HitMeaning | src/main_program/solver.c:46-58 | a hit is exactly the whole word on the grid, letter k at k steps from the start |
| Solver.EndInGrid | src/main_program/solver.c:36-39 | the end of a hit is a grid cell, so it is never reported as -1 |
| Solver.FirstLetterNeeded | src/main_program/solver.c:46-48 | a cell without the first letter starts no match |
| Solver.WordCoordinates.Attempt | src/main_program/solver.c:57-59 | one attempt reports a hit exactly when the word lies along that direction, and then records its end |
| Solver.WordCoordinates.TryStart | src/main_program/solver.c:49-69 | the first direction, in the order (-1,0), (-1,1), (0,1), (1,0), (1,1), along which the word lies |
| Solver.WordCoordinates.SearchTheWord | src/main_program/solver.c:42-73 | the report is the first match, in row-major start order and then direction order, or "Not found". The record holds the match; after a miss only `end_x` becomes -1, and only if the first letter occurs; the same code is at src/solver.c:40-71 |
| Solver.TryDirectionsFirst | src/main_program/solver.c:49-56 | the direction tried is the first one that hits, and none when none does |
| Solver.SearchFromFirst | src/main_program/solver.c:44-66 | the scan returns the first hit among the candidates at or after the current cell |
| Solver.SearchFound | src/main_program/solver.c:57-66 | a reported match has the first letter at its start and the word along its direction, and no earlier candidate is a hit |
| Solver.SearchNotFound | src/main_program/solver.c:72 | "Not found" is reported exactly when no start and direction gives a hit |
| Solver.SearchSegment | src/main_program/solver.c:30-39 | `end = start + (len - 1) * (dx, dy)` with dy >= 0 (never upwards), and every cell of the segment is in bounds and holds its letter |
| Solver.OneLetter | src/main_program/solver.c:36-39 | a one-letter word is found exactly when its letter occurs, with end = start |
| Solver.WordCoordinates.Resolve | src/main_program/solver.c:75-81 | the list's words are searched in order and the global ends as after those searches |
| Solver.DriverHello | src/gridsolver/main.c:7-19 | HELLO lies from (14,2) to (10,6) on the driver's grid |
| Solver.DriverEntropic | src/gridsolver/main.c:7-19 | ENTROPIC lies from (3,0) to (3,7) |
| Solver.DriverIng | src/gridsolver/main.c:7-19 | ING1 lies from (2,1) to (5,1) |
| Solver.ShortGridEntropic | src/solver.c:76-93 | ENTROPIC lies from (5,0) to (5,7) on the older test grid, despite its short row |
| Training.LetterIndex | src/neural_network/neural.c:249-250 | the drawn letter index is below 26 |
| Training.CorrectBound | src/neural_network/neural.c:257-273 | no more examples are correct than loaded, and no more loaded than exist |
| Training.EpochCorrect | src/neural_network/neural.c:240-274 | an epoch's count is the number of loaded examples classified as their letter, at most DATASET_SIZE |
| Training.OneHot | src/neural_network/neural.c:263-264 | the target has 26 entries, 1 at the letter and 0 elsewhere |
| Training.OneHotDistinct | src/neural_network/neural.c:263-264 | different letters have different targets |
| Training.FindLogic | src/neural_network/neural.c:153-160 | the answer is a lowercase letter, `'a'` plus the index max_i returns |
| Training.FindLogicAgrees | src/neural_network/neural.c:159 | its answer is the drawn letter exactly when training counts the example correct |
| Training.PrefixMaxIsMax | src/neural_network/neural.c:280-284 | `best_correct` is the greatest epoch count so far, or 0 |
| Training.PrefixMaxGrows | src/neural_network/neural.c:225 | `best_correct` never decreases |
| Training.StaleMeaning | src/neural_network/neural.c:280-290 | the counter is the length of the trailing run of epochs that did not beat the best, and the epoch before that run did |
| Training.EpochStep | src/neural_network/neural.c:280-286 | a strictly better epoch becomes the best and resets the counter; any other epoch adds one |
| Training.CorrectsBound | src/neural_network/neural.c:269-273 | every epoch's count is at most DATASET_SIZE |
| Training.EpochEnd | src/neural_network/neural.c:280-290 | one epoch end keeps the loop state: best and counter of the counts so far |
| Training.NeuralTrain | src/neural_network/neural.c:218-292 | at most EPOCHS epochs, and none past the one whose head reads the stop flag. Best and counter are the maximum and trailing count of the epoch counts. Training stops early exactly when the counter reaches 3, never earlier |

## Left out

- SDL and files are not modelled. This covers loading images, converting surfaces, saving crops and their file names, and debug output. Each save is an entry in an output log, and a load is an input that is either absent or an image.
- The luma formula of `grayscale` is floating point and is not modelled; the grayscale image is an input.
- Integer widths are not modelled. Counts, sums and coordinates are unbounded integers, so C `int` / `uint64_t` overflow does not occur in the model.
- `save_sub_image` skips empty rectangles and blits through SDL; the log records every call, empty ones included.
- `extract_grid_data` and the UI, CLI and test `main` programs are drivers and are not part of this model. The solver test grids appear only as fixtures.
- Layout.ChooseSplit: the score is an exact `real`, not a C `double`, so ties are exact ratio ties.
- Glyphs.ProcessAndSaveChar: requires a blob taller than 5 rows. That is what its only caller, extract_list_characters, guarantees, and the recursion's termination depends on it.
- Glyphs.Narrow: `(float)w / (float)h < 1.1` is modelled as the exact `10 * w < 11 * h`, ignoring float rounding.
- Threshold.GetThreshold: Otsu's arithmetic is exact `real`; rounding of the `double` means and variance is not modelled.
- Threshold.GetThresholdFixed: the histogram it fills is started at zero. In src/grayscale.c it is left uninitialised, which cannot be seen because the result is the constant 127.
- Packing.PathToBitmap: models the corrected size check (width exactly `8 * w`); the size check as written is kept in `AcceptsAsWritten`, see Findings.
- Locating.FloodFill: the recursion is run with an explicit stack of pending pixels, in the same visiting order; the C stack depth is not modelled.
- Locating.ExtractCharacters: the file name `char_%03d.png` built from `count` and the saved image are not modelled; the boxes are returned in logging order instead.
- Locating.ComputeProjections: requires the two projection arrays to be distinct; a call passing the same array for both is not modelled.
- Locating.GetPixel: a surface is one byte per pixel; `pitch` and `BytesPerPixel` addressing is not modelled.
- Solver.DriverHello: proves that the expected answer is a match of the driver's grid, not that it is the first match; the same holds for Solver.DriverEntropic, Solver.DriverIng and Solver.ShortGridEntropic.
- Solver.WordCoordinates.SearchTheWord: the grid is a sequence of rows and the word a sequence of characters; C's NUL terminator is modelled only for an empty word (`word[0]` is NUL).
- Training.NeuralTrain: network arithmetic is not modelled. Forward pass, back-propagation, weight initialisation and the random draws are not computed: each example's drawn letter, load success and `max_i` answer are inputs. This includes the one-in-fifteen choice of the comparison set.
- Training.NeuralTrain: the SIGUSR1 handler is asynchronous; the model takes the first epoch whose loop head reads `must_stop` set, as the parameter `stopAt`.
- Training.FindLogic: requires the index from `max_i` to be below 26. `max_i` over the 26 outputs is declared in include/matrix.h and its body is not part of this model.
- Weight saving and loading, src/neural_network/matrix.c and the older network in src/neural.c are floating-point or file I/O and are not modelled.

## Findings

| source | as written | input that shows it | evidently intended | confidence | as-written member | corrected member |
|---|---|---|---|---|---|---|
| src/image_processing/grayscale.c:158 | `img->w / 8 != w` rejects only widths outside `8w..8w+7`, and pixel x is written to byte `x / 8 + y * w` | a 9-by-1 image with h = 1, w = 1 is accepted, and pixel (8, 0) is written to byte 1 of the 1-byte bitmap, past its end (the same check is at src/grayscale.c:103) | accept only images exactly `8 * w` wide, so every pixel's bit lies in the `h * w`-byte buffer | not executed | Packing.AsWrittenOverflows | Packing.PathToBitmap |
