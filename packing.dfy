/**
 * path_to_bitmap and path_to_bytes: a loaded, grayscaled image is
 * thresholded and packed into a caller's buffer, one bit per pixel (most
 * significant bit first) or one byte per pixel.
 */
module Packing {
  import opened Bits
  import opened Threshold

  /** The outcome of SDL_LoadBMP followed by grayscale: no image, or its gray surface. */
  datatype Loaded = LoadFailed | Image(gray: Gray)

  /** The threshold path_to_bitmap applies. */
  const BitmapThreshold := 127

  /** The threshold path_to_bytes applies. */
  const BytesThreshold := 254

  /** The gray value of pixel (x, y). */
  function Pixel(g: Gray, x: int, y: int): Intensity
    requires Valid(g) && 0 <= x < g.w && 0 <= y < g.h
  {
    RowInside(y, g.w, g.h);
    g.pixels[y * g.w + x]
  }

  /** The byte of a `w`-byte-wide bitmap that holds pixel (x, y). */
  function ByteIndex(x: int, y: int, w: int): int
  {
    x / 8 + y * w
  }

  /** The bit of that byte that holds pixel (x, y): the leftmost pixel of a byte is its most significant bit. */
  function BitIndex(x: int): int
  {
    7 - x % 8
  }

  /**
   * Pixel (x, y) of `g` is packed into the bitmap: its bit is 1 exactly when
   * the thresholded pixel is black, i.e. when its gray value is at most 127.
   */
  ghost predicate PixelPacked(bm: seq<bv8>, g: Gray, w: int, x: int, y: int)
    requires Valid(g) && 0 <= x < g.w && 0 <= y < g.h
  {
    && 0 <= ByteIndex(x, y, w) < |bm|
    && (Bit(bm[ByteIndex(x, y, w)], BitIndex(x)) <==> Pixel(g, x, y) <= BitmapThreshold)
  }

  /** Every pixel of `g` is packed into the bitmap. */
  ghost predicate Packed(bm: seq<bv8>, g: Gray, w: int)
    requires Valid(g)
  {
    forall x, y :: 0 <= x < g.w && 0 <= y < g.h ==> PixelPacked(bm, g, w, x, y)
  }

  /** The size check of path_to_bitmap as written: the height matches and the width divided by 8 matches. */
  predicate AcceptsAsWritten(g: Gray, h: int, w: int)
  {
    g.h == h && g.w / 8 == w
  }

  /** The size check path_to_bitmap needs: the height matches and each row fills exactly `w` bytes. */
  predicate Accepts(g: Gray, h: int, w: int)
  {
    g.h == h && g.w == 8 * w
  }

  /**
   * The size check as written lets through an image 9 pixels wide for a 1-by-1
   * bitmap, and its pixel (8, 0) is then written to byte 1 of a 1-byte buffer.
   */
  lemma AsWrittenOverflows()
    ensures var g := Gray(9, 1, seq(9, _ => 0));
            AcceptsAsWritten(g, 1, 1) && ByteIndex(8, 0, 1) == 1 * 1
  {
  }

  /**
   * More generally, whenever the size check as written accepts a width that is not
   * a multiple of 8, the last pixel of the last row lands past the end of the
   * `h * w`-byte buffer.
   */
  lemma AsWrittenOverflowsAlways(g: Gray, h: int, w: int)
    requires Valid(g) && AcceptsAsWritten(g, h, w) && g.h > 0 && g.w % 8 != 0
    ensures ByteIndex(g.w - 1, g.h - 1, w) >= h * w
  {
    assert (g.w - 1) / 8 == w;
    assert (h - 1) * w + w == h * w;
  }

  /** With the corrected check every pixel's byte lies inside the `h * w`-byte buffer. */
  lemma ByteInside(x: int, y: int, w: int, h: int)
    requires 0 <= x < 8 * w && 0 <= y < h
    ensures 0 <= ByteIndex(x, y, w) < h * w
  {
    RowInside(y, w, h);
  }

  /** Distinct pixels of an accepted image own distinct bits. */
  lemma PixelsOwnDistinctBits(x1: int, y1: int, x2: int, y2: int, w: int)
    requires 0 <= x1 < 8 * w && 0 <= x2 < 8 * w && 0 <= y1 && 0 <= y2
    requires ByteIndex(x1, y1, w) == ByteIndex(x2, y2, w) && BitIndex(x1) == BitIndex(x2)
    ensures x1 == x2 && y1 == y2
  {
    if y1 < y2 {
      RowInside(y1, w, y2);
      assert false;
    } else if y2 < y1 {
      RowInside(y2, w, y1);
      assert false;
    }
  }

  /**
   * Every bit of the buffer belongs to some pixel: bit `j` of byte `k` holds
   * pixel (8 * (k % w) + 7 - j, k / w).
   */
  lemma EveryBitOwned(k: int, j: int, w: int, h: int)
    requires w > 0 && 0 <= k < h * w && 0 <= j < 8
    ensures var x, y := 8 * (k % w) + 7 - j, k / w;
            0 <= x < 8 * w && 0 <= y < h && ByteIndex(x, y, w) == k && BitIndex(x) == j
  {
    var x, y := 8 * (k % w) + 7 - j, k / w;
    assert x / 8 == k % w;
    assert x % 8 == 7 - j;
    assert k == y * w + k % w;
    if y >= h {
      assert false;
    }
  }

  /**
   * A packed bitmap is determined by the image: whatever the buffer held
   * before, every one of its `h * w` bytes ends up the same.
   */
  lemma PackedUnique(bm1: seq<bv8>, bm2: seq<bv8>, g: Gray, h: int, w: int)
    requires Valid(g) && Accepts(g, h, w) && |bm1| == |bm2| == h * w
    requires Packed(bm1, g, w) && Packed(bm2, g, w)
    ensures bm1 == bm2
  {
    forall k | 0 <= k < h * w
      ensures bm1[k] == bm2[k]
    {
      forall j | 0 <= j < 8
        ensures Bit(bm1[k], j) <==> Bit(bm2[k], j)
      {
        EveryBitOwned(k, j, w, h);
        var x, y := 8 * (k % w) + 7 - j, k / w;
        assert PixelPacked(bm1, g, w, x, y) && PixelPacked(bm2, g, w, x, y);
      }
      BitsDetermine(bm1[k], bm2[k]);
    }
  }

  /**
   * path_to_bitmap, with the size check corrected: 0 when the image could not
   * be loaded or its size does not match, and then the buffer is untouched;
   * otherwise 1, with the thresholded image packed into the buffer.
   */
  method PathToBitmap(loaded: Loaded, bitmap: array<bv8>, h: int, w: int) returns (status: int)
    requires 0 <= h && 0 <= w && bitmap.Length == h * w
    requires loaded.Image? ==> Valid(loaded.gray)
    modifies bitmap
    ensures status == 0 || status == 1
    ensures status == 1 <==> loaded.Image? && Accepts(loaded.gray, h, w)
    ensures status == 0 ==> bitmap[..] == old(bitmap[..])
    ensures status == 1 ==> Packed(bitmap[..], loaded.gray, w)
  {
    if loaded.LoadFailed? {
      return 0;
    }
    var img := loaded.gray;
    if img.h != h || img.w != 8 * w {
      return 0;
    }
    var bnw := ApplyThreshold(img, BitmapThreshold);
    var y := 0;
    while y < bnw.h
      invariant 0 <= y <= h && bitmap.Length == h * w
      invariant forall x, yy :: 0 <= x < img.w && 0 <= yy < y ==> PixelPacked(bitmap[..], img, w, x, yy)
    {
      RowInside(y, w, h);
      RowInside(y, img.w, h);
      ghost var before := bitmap[..];
      PackRow(bitmap, img.pixels, bnw.pixels, y * img.w, y * w, w);
      forall x, yy | 0 <= x < img.w && 0 <= yy <= y
        ensures PixelPacked(bitmap[..], img, w, x, yy)
      {
        if yy < y {
          RowInside(yy, w, y);
          assert PixelPacked(before, img, w, x, yy);
          assert bitmap[..][ByteIndex(x, yy, w)] == before[ByteIndex(x, yy, w)];
        } else {
          assert ByteIndex(x, yy, w) == y * w + x / 8;
          assert Pixel(img, x, yy) == img.pixels[y * img.w + x];
        }
      }
      y := y + 1;
    }
    return 1;
  }

  /**
   * The inner loop of path_to_bitmap over one row of `8 * w` pixels starting
   * at `rowStart`: pixel x goes to bit 7 - x % 8 of byte `base + x / 8`, set
   * when the thresholded pixel is black; the bytes of other rows are kept.
   */
  method PackRow(bitmap: array<bv8>, ghost gray: seq<Intensity>, bnw: seq<Intensity>, rowStart: nat, base: nat, w: nat)
    requires bnw == Thresholded(gray, BitmapThreshold)
    requires rowStart + 8 * w <= |gray| && base + w <= bitmap.Length
    modifies bitmap
    ensures forall x :: 0 <= x < 8 * w ==>
              (Bit(bitmap[base + x / 8], BitIndex(x)) <==> gray[rowStart + x] <= BitmapThreshold)
    ensures forall i :: 0 <= i < bitmap.Length && !(base <= i < base + w) ==> bitmap[i] == old(bitmap[i])
  {
    var x := 0;
    while x < 8 * w
      invariant 0 <= x <= 8 * w
      invariant forall xx :: 0 <= xx < x ==>
                  (Bit(bitmap[base + xx / 8], BitIndex(xx)) <==> gray[rowStart + xx] <= BitmapThreshold)
      invariant forall i :: 0 <= i < bitmap.Length && !(base <= i < base + w) ==> bitmap[i] == old(bitmap[i])
    {
      var r := bnw[rowStart + x];
      ghost var before := bitmap[..];
      bitmap[base + x / 8] := ChangeBit(7 - x % 8, bitmap[base + x / 8], if r == 0 then 1 else 0);
      forall xx | 0 <= xx < x
        ensures Bit(bitmap[base + xx / 8], BitIndex(xx)) <==> Bit(before[base + xx / 8], BitIndex(xx))
      {
        if xx / 8 == x / 8 {
          assert BitIndex(xx) != BitIndex(x);
        }
      }
      x := x + 1;
    }
  }

  /** The byte path_to_bytes stores for a pixel: 1 (ink) unless the pixel is pure white. */
  function InkByte(v: Intensity): bv8
  {
    if v > BytesThreshold then 0 else 1
  }

  /**
   * path_to_bytes: 0 when the image could not be loaded or is not exactly
   * `w` by `h`, and then the buffer is untouched; otherwise 1, with byte
   * x + y * w set to 1 for every pixel that is not pure white and to 0 for
   * every pure white one.
   */
  method PathToBytes(loaded: Loaded, bitmap: array<bv8>, h: int, w: int) returns (status: int)
    requires 0 <= h && 0 <= w && bitmap.Length == h * w
    requires loaded.Image? ==> Valid(loaded.gray)
    modifies bitmap
    ensures status == 0 || status == 1
    ensures status == 1 <==> loaded.Image? && loaded.gray.h == h && loaded.gray.w == w
    ensures status == 0 ==> bitmap[..] == old(bitmap[..])
    ensures status == 1 ==> forall i :: 0 <= i < h * w ==>
              (bitmap[i] == 1 <==> loaded.gray.pixels[i] != 255) && (bitmap[i] == 0 <==> loaded.gray.pixels[i] == 255)
  {
    if loaded.LoadFailed? {
      return 0;
    }
    var img := loaded.gray;
    if img.h != h || img.w != w {
      return 0;
    }
    var bnw := ApplyThreshold(img, BytesThreshold);
    WriteBytes(bitmap, img.pixels, bnw.pixels, h, w);
    return 1;
  }

  /** The two loops of path_to_bytes: row `y` starts at `base`, which stays equal to y * w. */
  method WriteBytes(bitmap: array<bv8>, ghost gray: seq<Intensity>, bnw: seq<Intensity>, h: nat, w: nat)
    requires bnw == Thresholded(gray, BytesThreshold) && |gray| == h * w == bitmap.Length
    modifies bitmap
    ensures forall i :: 0 <= i < h * w ==> bitmap[i] == InkByte(gray[i])
  {
    RowsProduct(h, w);
    var y := 0;
    var base: nat := 0;
    while y < h
      invariant 0 <= y <= h && base + Rows(h - y, w) == h * w
      invariant forall i :: 0 <= i < base ==> bitmap[i] == InkByte(gray[i])
    {
      BytesRow(bitmap, gray, bnw, base, w);
      y := y + 1;
      base := base + w;
    }
  }

  /** The inner loop of path_to_bytes over the row of `w` pixels starting at `base`. */
  method BytesRow(bitmap: array<bv8>, ghost gray: seq<Intensity>, bnw: seq<Intensity>, base: nat, w: nat)
    requires bnw == Thresholded(gray, BytesThreshold)
    requires base + w <= |gray| == bitmap.Length
    requires forall i :: 0 <= i < base ==> bitmap[i] == InkByte(gray[i])
    modifies bitmap
    ensures forall i :: 0 <= i < base + w ==> bitmap[i] == InkByte(gray[i])
  {
    var x := 0;
    while x < w
      invariant 0 <= x <= w
      invariant forall i :: 0 <= i < base + x ==> bitmap[i] == InkByte(gray[i])
    {
      var r := bnw[base + x];
      bitmap[x + base] := if r != 0 then 0 else 1;
      x := x + 1;
    }
  }
}
