/**
 * The thresholded RGBA surface that the grid extractor reads. Only the red
 * channel matters to it: a pixel is ink when its red value is at most 128,
 * and anything outside the surface reads as background.
 */
module BinaryImage {

  /** One 8-bit channel value. */
  type Byte = v: int | 0 <= v < 256

  /** A surface of `h` rows of `w` red-channel values each. */
  datatype Surface = Surface(w: nat, h: nat, red: seq<seq<Byte>>)

  predicate WellFormed(s: Surface)
  {
    |s.red| == s.h && forall y :: 0 <= y < s.h ==> |s.red[y]| == s.w
  }

  type Image = s: Surface | WellFormed(s) witness Surface(0, 0, [])

  /**
   * get_pixel_binary: 1 (background) or 0 (ink). A pixel is ink exactly
   * when it lies on the surface and its red value is at most 128.
   */
  function GetPixelBinary(img: Image, x: int, y: int): (v: int)
    ensures v == 0 || v == 1
    ensures v == 0 <==> 0 <= x < img.w && 0 <= y < img.h && img.red[y][x] <= 128
  {
    if x < 0 || x >= img.w || y < 0 || y >= img.h then 1
    else if img.red[y][x] > 128 then 1
    else 0
  }

  predicate IsInk(img: Image, x: int, y: int)
  {
    GetPixelBinary(img, x, y) == 0
  }

  /** Number of ink pixels at (x, y0), (x, y0 + 1), ..., (x, y0 + n - 1). */
  function InkInColumn(img: Image, x: int, y0: int, n: nat): (c: nat)
    ensures c <= n
  {
    if n == 0 then 0
    else InkInColumn(img, x, y0, n - 1) + (if IsInk(img, x, y0 + n - 1) then 1 else 0)
  }

  /** Number of ink pixels at (x0, y), (x0 + 1, y), ..., (x0 + n - 1, y). */
  function InkInRow(img: Image, y: int, x0: int, n: nat): (c: nat)
    ensures c <= n
  {
    if n == 0 then 0
    else InkInRow(img, y, x0, n - 1) + (if IsInk(img, x0 + n - 1, y) then 1 else 0)
  }

  /** Number of ink pixels in the columns [x0, x1), rows [y0, y0 + n). */
  function InkInColumns(img: Image, x0: int, x1: int, y0: int, n: nat): nat
    decreases x1 - x0
  {
    if x1 <= x0 then 0
    else InkInColumns(img, x0, x1 - 1, y0, n) + InkInColumn(img, x1 - 1, y0, n)
  }

  /** Counts the ink pixels of one column segment, top to bottom. */
  method CountColumnInk(img: Image, x: int, y0: int, n: nat) returns (c: nat)
    ensures c == InkInColumn(img, x, y0, n)
  {
    c := 0;
    var k := 0;
    while k < n
      invariant 0 <= k <= n
      invariant c == InkInColumn(img, x, y0, k)
    {
      if GetPixelBinary(img, x, y0 + k) == 0 {
        c := c + 1;
      }
      k := k + 1;
    }
  }

  /** Counts the ink pixels of a block of columns, column by column. */
  method CountColumnsInk(img: Image, x0: int, x1: int, y0: int, n: nat) returns (c: nat)
    ensures c == InkInColumns(img, x0, x1, y0, n)
  {
    c := 0;
    var i := x0;
    while i < x1
      invariant x0 <= i && (x0 <= x1 ==> i <= x1) && (x1 < x0 ==> i == x0)
      invariant c == InkInColumns(img, x0, i, y0, n)
    {
      var col := CountColumnInk(img, i, y0, n);
      c := c + col;
      i := i + 1;
    }
  }
}
