/** The bounds reducer of the content-bounds detector: one row-major scan of
    an RGBA pixel buffer that tracks the least and greatest column and row of
    the content pixels, then a padded, clamped rectangle or, when the detected
    span is too small, the whole image. */
module ContentBounds {
  import opened PixelClassifier

  /** Decoded image data: extent in pixels and four bytes (red, green, blue,
      alpha) per pixel, row by row. */
  datatype ImageData = ImageData(width: nat, height: nat, data: seq<Byte>)

  /** The rectangle handed to the crop: left, top, width, height. */
  datatype Rect = Rect(left: int, top: int, width: int, height: int)

  /** The scan's accumulator. */
  datatype Extent = Extent(minX: int, maxX: int, minY: int, maxY: int)

  /** The rectangle starts this far before the extent's minimum (clamped at
      0); its width and height add twice this to the span maxX - minX, which
      leaves one column fewer after the extent than before it. */
  const Padding: int := 5
  /** A detected span below this, in either axis, is discarded. */
  const MinSpan: int := 100

  predicate WellFormed(img: ImageData)
  {
    |img.data| == img.width * img.height * 4
  }

  /** The accumulator before any content pixel is seen: minimum at the far
      edge, maximum at zero, so that minimum is not below maximum (above it for
      a non-empty image). */
  function EmptyExtent(width: nat, height: nat): (e: Extent)
    ensures e.minX >= e.maxX && e.minY >= e.maxY
    ensures e.maxX - e.minX < MinSpan && e.maxY - e.minY < MinSpan
  {
    Extent(width, 0, height, 0)
  }

  /** An accumulator the scan can produce: empty, or spans inside the image. */
  predicate ExtentInImage(width: nat, height: nat, e: Extent)
  {
    e == EmptyExtent(width, height) ||
    (0 <= e.minX <= e.maxX < width && 0 <= e.minY <= e.maxY < height)
  }

  predicate InsideImage(width: nat, height: nat, r: Rect)
  {
    0 <= r.left && 0 <= r.top && 0 <= r.width && 0 <= r.height &&
    r.left + r.width <= width && r.top + r.height <= height
  }

  /** Index of the red byte of pixel (x, y); green, blue and alpha follow. */
  function PixelOffset(width: nat, x: nat, y: nat): (i: nat)
    ensures i % 4 == 0 && i / 4 == y * width + x
  {
    (y * width + x) * 4
  }

  /** All four bytes of every pixel lie inside a well-formed buffer. */
  lemma OffsetInBounds(img: ImageData, x: nat, y: nat)
    requires WellFormed(img) && x < img.width && y < img.height
    ensures PixelOffset(img.width, x, y) + 3 < |img.data|
  {
    var w, h := img.width, img.height;
    assert y * w + x < (y + 1) * w;
    assert (y + 1) * w <= h * w by {
      assert h * w - (y + 1) * w == (h - (y + 1)) * w;
    }
    assert (y * w + x) * 4 + 4 <= h * w * 4;
  }

  /** Whether pixel (x, y) is content, judged on its red, green and blue bytes. */
  predicate IsContentAt(img: ImageData, x: nat, y: nat)
    requires WellFormed(img) && x < img.width && y < img.height
  {
    OffsetInBounds(img, x, y);
    var i := PixelOffset(img.width, x, y);
    IsContentPixel(img.data[i], img.data[i + 1], img.data[i + 2])
  }

  /** Scan position (x, y) exists in an image of the given extent: a column
      of a row, one past the last column, or the end of the last row. */
  predicate IsScanPosition(width: nat, height: nat, y: nat, x: nat)
  {
    (y < height && x <= width) || (y == height && x == 0)
  }

  /** The content pixels the row-major scan has visited before (x, y). */
  ghost function ContentBefore(img: ImageData, y: nat, x: nat): set<(int, int)>
    requires WellFormed(img) && IsScanPosition(img.width, img.height, y, x)
    decreases y, x
  {
    if x == 0 then
      if y == 0 then {} else ContentBefore(img, y - 1, img.width)
    else
      ContentBefore(img, y, x - 1) + (if IsContentAt(img, x - 1, y) then {(x - 1, y)} else {})
  }

  /** The positions (column, row) of all the image's content pixels. */
  ghost function ContentPixels(img: ImageData): set<(int, int)>
    requires WellFormed(img)
  {
    ContentBefore(img, img.height, 0)
  }

  ghost predicate HasContent(img: ImageData)
    requires WellFormed(img)
  {
    ContentPixels(img) != {}
  }

  /** Before (x, y) the scan has visited exactly the earlier rows and the
      earlier columns of row y, and collected the content pixels among them. */
  lemma {:induction false} ContentBeforeMembers(img: ImageData, y: nat, x: nat)
    requires WellFormed(img) && IsScanPosition(img.width, img.height, y, x)
    ensures forall p :: p in ContentBefore(img, y, x) <==>
              0 <= p.0 < img.width && 0 <= p.1 < img.height &&
              (p.1 < y || (p.1 == y && p.0 < x)) && IsContentAt(img, p.0, p.1)
    decreases y, x
  {
    if x == 0 {
      if y > 0 {
        ContentBeforeMembers(img, y - 1, img.width);
      }
    } else {
      ContentBeforeMembers(img, y, x - 1);
    }
  }

  /** ContentPixels holds exactly the positions inside the image whose pixel
      is content. */
  lemma ContentPixelsMembers(img: ImageData)
    requires WellFormed(img)
    ensures forall p :: p in ContentPixels(img) <==>
              0 <= p.0 < img.width && 0 <= p.1 < img.height && IsContentAt(img, p.0, p.1)
  {
    ContentBeforeMembers(img, img.height, 0);
  }

  /** e holds exactly the least and greatest column and row of the positions
      in pts, or is the empty accumulator when pts is empty. */
  ghost predicate IsExtentOf(pts: set<(int, int)>, width: nat, height: nat, e: Extent)
  {
    if pts == {} then
      e == EmptyExtent(width, height)
    else
      (forall p :: p in pts ==> e.minX <= p.0 <= e.maxX && e.minY <= p.1 <= e.maxY) &&
      (exists p :: p in pts && p.0 == e.minX) &&
      (exists p :: p in pts && p.0 == e.maxX) &&
      (exists p :: p in pts && p.1 == e.minY) &&
      (exists p :: p in pts && p.1 == e.maxY)
  }

  /** e is the extent of the content pixels of the whole image. */
  ghost predicate IsContentExtent(img: ImageData, e: Extent)
    requires WellFormed(img)
  {
    IsExtentOf(ContentPixels(img), img.width, img.height, e)
  }

  /** The loop body's update: widen the accumulator by position (x, y). */
  function Widen(e: Extent, x: int, y: int): (r: Extent)
    ensures r.minX <= x <= r.maxX && r.minY <= y <= r.maxY
    ensures r.minX <= e.minX && e.maxX <= r.maxX && r.minY <= e.minY && e.maxY <= r.maxY
    ensures (r.minX == e.minX || r.minX == x) && (r.maxX == e.maxX || r.maxX == x)
    ensures (r.minY == e.minY || r.minY == y) && (r.maxY == e.maxY || r.maxY == y)
  {
    Extent(Min(e.minX, x), Max(e.maxX, x), Min(e.minY, y), Max(e.maxY, y))
  }

  /** Widening by a position inside the image turns the extent of pts into
      the extent of pts with that position added. */
  lemma WidenAdds(pts: set<(int, int)>, width: nat, height: nat, e: Extent, x: nat, y: nat)
    requires x < width && y < height
    requires IsExtentOf(pts, width, height, e)
    ensures IsExtentOf(pts + {(x, y)}, width, height, Widen(e, x, y))
  {
    var q := (x, y);
    var e' := Widen(e, x, y);
    if pts == {} {
      assert pts + {q} == {q};
      assert e' == Extent(x, x, y, y);
    } else {
      var a :| a in pts && a.0 == e.minX;
      var b :| b in pts && b.0 == e.maxX;
      var c :| c in pts && c.1 == e.minY;
      var d :| d in pts && d.1 == e.maxY;
      var a' := if e'.minX == x then q else a;
      var b' := if e'.maxX == x then q else b;
      var c' := if e'.minY == y then q else c;
      var d' := if e'.maxY == y then q else d;
      assert a' in pts + {q} && a'.0 == e'.minX;
      assert b' in pts + {q} && b'.0 == e'.maxX;
      assert c' in pts + {q} && c'.1 == e'.minY;
      assert d' in pts + {q} && d'.1 == e'.maxY;
    }
  }

  /** One step of the scan keeps the accumulator exact, whether or not the
      visited pixel is content. */
  lemma ScanStep(pts: set<(int, int)>, width: nat, height: nat, e: Extent, x: nat, y: nat, hit: bool)
    requires x < width && y < height
    requires IsExtentOf(pts, width, height, e)
    ensures IsExtentOf(pts + (if hit then {(x, y)} else {}), width, height,
                       if hit then Widen(e, x, y) else e)
  {
    if hit {
      WidenAdds(pts, width, height, e, x, y);
    } else {
      assert pts + {} == pts;
    }
  }

  /** The accumulator as the row-major scan leaves it just before (x, y):
      the empty accumulator widened by each content pixel in turn. */
  ghost function Accumulated(img: ImageData, y: nat, x: nat): (e: Extent)
    requires WellFormed(img) && IsScanPosition(img.width, img.height, y, x)
    ensures ExtentInImage(img.width, img.height, e)
    decreases y, x
  {
    if x == 0 then
      if y == 0 then EmptyExtent(img.width, img.height) else Accumulated(img, y - 1, img.width)
    else
      var e := Accumulated(img, y, x - 1);
      if IsContentAt(img, x - 1, y) then Widen(e, x - 1, y) else e
  }

  /** At every scan position the accumulator is the exact extent of the
      content pixels seen so far. */
  lemma {:induction false} AccumulatedIsExtent(img: ImageData, y: nat, x: nat)
    requires WellFormed(img) && IsScanPosition(img.width, img.height, y, x)
    ensures IsExtentOf(ContentBefore(img, y, x), img.width, img.height, Accumulated(img, y, x))
    decreases y, x
  {
    if x == 0 {
      if y > 0 {
        AccumulatedIsExtent(img, y - 1, img.width);
      }
    } else {
      AccumulatedIsExtent(img, y, x - 1);
      ScanStep(ContentBefore(img, y, x - 1), img.width, img.height, Accumulated(img, y, x - 1),
               x - 1, y, IsContentAt(img, x - 1, y));
    }
  }

  /** The accumulator after the last row: the extent the scan computes. */
  ghost function ContentExtent(img: ImageData): (e: Extent)
    requires WellFormed(img)
    ensures ExtentInImage(img.width, img.height, e)
  {
    Accumulated(img, img.height, 0)
  }

  /** The scan's result holds exactly the least and greatest column and row
      of the image's content pixels, or is the empty accumulator when the
      image has no content. */
  lemma ContentExtentIsExact(img: ImageData)
    requires WellFormed(img)
    ensures IsContentExtent(img, ContentExtent(img))
  {
    AccumulatedIsExtent(img, img.height, 0);
  }

  /** The exact extent of an image with content lies inside the image; that
      of an image without content is the empty accumulator. */
  lemma ContentExtentInImage(img: ImageData, e: Extent)
    requires WellFormed(img) && IsContentExtent(img, e)
    ensures ExtentInImage(img.width, img.height, e)
    ensures HasContent(img) <==> e != EmptyExtent(img.width, img.height)
  {
    ContentPixelsMembers(img);
    if HasContent(img) {
      var p :| p in ContentPixels(img);
    }
  }

  /** The scan of app.js: visits every pixel once, row by row, and widens the
      accumulator by each content pixel; the result is ContentExtent. */
  method ScanContentExtent(img: ImageData) returns (e: Extent)
    requires WellFormed(img)
    ensures e == ContentExtent(img)
    ensures IsContentExtent(img, e)
  {
    var width, height, data := img.width, img.height, img.data;
    var minY, maxY, minX, maxX := height, 0, width, 0;
    var y := 0;
    while y < height
      invariant 0 <= y <= height
      invariant Extent(minX, maxX, minY, maxY) == Accumulated(img, y, 0)
    {
      var x := 0;
      while x < width
        invariant 0 <= x <= width
        invariant Extent(minX, maxX, minY, maxY) == Accumulated(img, y, x)
      {
        OffsetInBounds(img, x, y);
        var i := PixelOffset(width, x, y);
        var r, g, b := data[i], data[i + 1], data[i + 2];
        if IsContentPixel(r, g, b) {
          minX := Min(minX, x);
          maxX := Max(maxX, x);
          minY := Min(minY, y);
          maxY := Max(maxY, y);
        }
        x := x + 1;
      }
      y := y + 1;
    }
    e := Extent(minX, maxX, minY, maxY);
    ContentExtentIsExact(img);
  }

  /** The exact extent is unique: any accumulator that holds the least and
      greatest column and row of the content is the scan's result. */
  lemma ExtentIsUnique(img: ImageData, e: Extent)
    requires WellFormed(img) && IsContentExtent(img, e)
    ensures e == ContentExtent(img)
  {
    ContentExtentIsExact(img);
    var pts, f := ContentPixels(img), ContentExtent(img);
    if pts != {} {
      var a :| a in pts && a.0 == e.minX;
      var b :| b in pts && b.0 == e.maxX;
      var c :| c in pts && c.1 == e.minY;
      var d :| d in pts && d.1 == e.maxY;
      var a' :| a' in pts && a'.0 == f.minX;
      var b' :| b' in pts && b'.0 == f.maxX;
      var c' :| c' in pts && c'.1 == f.minY;
      var d' :| d' in pts && d'.1 == f.maxY;
    }
  }

  /** The post-scan step of app.js: full image when the span is under MinSpan
      in either axis, otherwise the extent padded and clamped. */
  function CropRect(width: nat, height: nat, e: Extent): (r: Rect)
    ensures e.maxX - e.minX < MinSpan || e.maxY - e.minY < MinSpan ==> r == Rect(0, 0, width, height)
    ensures ExtentInImage(width, height, e) ==> InsideImage(width, height, r)
  {
    if e.maxX - e.minX < MinSpan || e.maxY - e.minY < MinSpan then
      Rect(0, 0, width, height)
    else
      Rect(Max(0, e.minX - Padding),
           Max(0, e.minY - Padding),
           Min(width - e.minX, e.maxX - e.minX + Padding * 2),
           Min(height - e.minY, e.maxY - e.minY + Padding * 2))
  }

  /** A span below MinSpan in either axis, the empty accumulator included,
      yields exactly the whole image. */
  lemma CropFallback(width: nat, height: nat, e: Extent)
    requires e.maxX - e.minX < MinSpan || e.maxY - e.minY < MinSpan
    ensures CropRect(width, height, e) == Rect(0, 0, width, height)
  {
  }

  /** With spans of at least MinSpan, the rectangle starts at most Padding
      before the extent, never before the image edge, and at the extent
      itself only where the edge clamps it. */
  lemma CropPadsStart(width: nat, height: nat, e: Extent)
    requires ExtentInImage(width, height, e)
    requires e.maxX - e.minX >= MinSpan && e.maxY - e.minY >= MinSpan
    ensures var r := CropRect(width, height, e);
      0 <= r.left <= e.minX && e.minX - r.left <= Padding &&
      (r.left == 0 || r.left == e.minX - Padding) &&
      0 <= r.top <= e.minY && e.minY - r.top <= Padding &&
      (r.top == 0 || r.top == e.minY - Padding)
  {
  }

  /** With spans of at least MinSpan, the width is the span maxX - minX plus
      2 * Padding unless clamped at the distance from the extent's near column
      to the image edge; likewise the height. */
  lemma CropPadsEnd(width: nat, height: nat, e: Extent)
    requires ExtentInImage(width, height, e)
    requires e.maxX - e.minX >= MinSpan && e.maxY - e.minY >= MinSpan
    ensures var r := CropRect(width, height, e);
      r.width <= width - e.minX && r.width <= e.maxX - e.minX + 2 * Padding &&
      (r.width == width - e.minX || r.width == e.maxX - e.minX + 2 * Padding) &&
      r.height <= height - e.minY && r.height <= e.maxY - e.minY + 2 * Padding &&
      (r.height == height - e.minY || r.height == e.maxY - e.minY + 2 * Padding)
  {
  }

  /** Every rectangle the scan's accumulator can lead to lies inside the image
      and, for an image of positive extent, is non-empty. */
  lemma CropInsideImage(width: nat, height: nat, e: Extent)
    requires ExtentInImage(width, height, e)
    ensures InsideImage(width, height, CropRect(width, height, e))
    ensures width >= 1 && height >= 1 ==>
              CropRect(width, height, e).width >= 1 && CropRect(width, height, e).height >= 1
  {
  }

  /** The rectangle covers every column of the extent that is more than
      Padding away from the right edge, and every such row likewise. */
  lemma CropCoversAwayFromFarEdge(width: nat, height: nat, e: Extent, px: int, py: int)
    requires ExtentInImage(width, height, e)
    requires e.minX <= px <= e.maxX && px < width - Padding
    requires e.minY <= py <= e.maxY && py < height - Padding
    ensures var r := CropRect(width, height, e);
      r.left <= px < r.left + r.width && r.top <= py < r.top + r.height
  {
  }

  /** The clamp measures from the extent's near column, not the padded one,
      so content in the last Padding columns can fall outside: an extent over
      columns 10..199 of a 200-wide image is cropped to columns 5..194. */
  lemma CropMayCutFarEdge()
    ensures var r := CropRect(200, 200, Extent(10, 199, 10, 199));
      r == Rect(5, 5, 190, 190) && !(r.left <= 199 < r.left + r.width)
  {
  }

  /** When neither clamp applies, the rectangle ends Padding past maxX, so
      its last column is maxX + 4: five columns of padding before the extent
      and four after it; likewise for rows. */
  lemma CropFarEdgeUnclamped(width: nat, height: nat, e: Extent)
    requires e.maxX - e.minX >= MinSpan && e.maxY - e.minY >= MinSpan
    requires e.minX >= Padding && e.minY >= Padding
    requires width - e.minX >= e.maxX - e.minX + 2 * Padding
    requires height - e.minY >= e.maxY - e.minY + 2 * Padding
    ensures var r := CropRect(width, height, e);
      r.left == e.minX - Padding && r.left + r.width == e.maxX + Padding &&
      r.top == e.minY - Padding && r.top + r.height == e.maxY + Padding
  {
  }

  /** The padding the left clamp drops is not lost but moves to the far side:
      an extent over columns 2..120 of a 500-wide image is cropped to columns
      0..127, seven past maxX; an extent over 10..120 to columns 5..124. */
  lemma CropPaddingExamples()
    ensures var r := CropRect(500, 500, Extent(2, 120, 2, 120));
      r == Rect(0, 0, 128, 128) && r.left + r.width - 1 == 120 + 7
    ensures var r := CropRect(500, 500, Extent(10, 120, 10, 120));
      r == Rect(5, 5, 120, 120) && r.left + r.width - 1 == 120 + 4
  {
  }

  /** findContentBounds: the rectangle computed from the exact content extent. */
  method FindContentBounds(img: ImageData) returns (rect: Rect)
    requires WellFormed(img)
    ensures rect == CropRect(img.width, img.height, ContentExtent(img))
    ensures InsideImage(img.width, img.height, rect)
    ensures img.width >= 1 && img.height >= 1 ==> rect.width >= 1 && rect.height >= 1
    ensures !HasContent(img) ==> rect == Rect(0, 0, img.width, img.height)
  {
    var e := ScanContentExtent(img);
    ContentExtentIsExact(img);
    ContentExtentInImage(img, e);
    rect := CropRect(img.width, img.height, e);
    CropInsideImage(img.width, img.height, e);
  }

  /** When the content spans at least MinSpan in both axes, the returned
      rectangle contains every content pixel that is more than Padding away
      from the right and bottom edges. */
  lemma BoundsCoverContent(img: ImageData, px: int, py: int)
    requires WellFormed(img) && (px, py) in ContentPixels(img)
    requires ContentExtent(img).maxX - ContentExtent(img).minX >= MinSpan
    requires ContentExtent(img).maxY - ContentExtent(img).minY >= MinSpan
    requires px < img.width - Padding && py < img.height - Padding
    ensures var r := CropRect(img.width, img.height, ContentExtent(img));
      r.left <= px < r.left + r.width && r.top <= py < r.top + r.height
  {
    var e := ContentExtent(img);
    ContentExtentIsExact(img);
    ContentExtentInImage(img, e);
    CropCoversAwayFromFarEdge(img.width, img.height, e, px, py);
  }

  /** Two images of the same extent whose pixels agree on being content
      accumulate the same extent at every scan position. */
  lemma {:induction false} AccumulatedAgrees(img1: ImageData, img2: ImageData, y: nat, x: nat)
    requires WellFormed(img1) && WellFormed(img2)
    requires img1.width == img2.width && img1.height == img2.height
    requires forall px: nat, py: nat :: px < img1.width && py < img1.height ==>
               IsContentAt(img1, px, py) == IsContentAt(img2, px, py)
    requires IsScanPosition(img1.width, img1.height, y, x)
    ensures Accumulated(img1, y, x) == Accumulated(img2, y, x)
    decreases y, x
  {
    if x == 0 {
      if y > 0 {
        AccumulatedAgrees(img1, img2, y - 1, img1.width);
      }
    } else {
      AccumulatedAgrees(img1, img2, y, x - 1);
    }
  }

  /** Only red, green and blue are consulted: two buffers that differ only in
      their alpha bytes classify every pixel alike, so the scan finds the
      same extent in both. */
  lemma AlphaIgnored(img1: ImageData, img2: ImageData)
    requires WellFormed(img1) && WellFormed(img2)
    requires img1.width == img2.width && img1.height == img2.height
    requires forall k :: 0 <= k < |img1.data| && k % 4 != 3 ==> img1.data[k] == img2.data[k]
    ensures ContentExtent(img1) == ContentExtent(img2)
  {
    forall px: nat, py: nat | px < img1.width && py < img1.height
      ensures IsContentAt(img1, px, py) == IsContentAt(img2, px, py)
    {
      OffsetInBounds(img1, px, py);
      var i := PixelOffset(img1.width, px, py);
      assert (i + 1) % 4 == 1 && (i + 2) % 4 == 2;
      assert img1.data[i] == img2.data[i];
      assert img1.data[i + 1] == img2.data[i + 1];
      assert img1.data[i + 2] == img2.data[i + 2];
    }
    AccumulatedAgrees(img1, img2, img1.height, 0);
  }

  /** An image in which every pixel has equal channels (all black, all white,
      solid gray) has no content, so the reducer returns the whole image. */
  lemma UniformGrayFallsBack(img: ImageData)
    requires WellFormed(img)
    requires forall k :: 0 <= k && k + 2 < |img.data| && k % 4 == 0 ==>
               img.data[k] == img.data[k + 1] == img.data[k + 2]
    ensures !HasContent(img)
    ensures CropRect(img.width, img.height, ContentExtent(img)) == Rect(0, 0, img.width, img.height)
  {
    ContentPixelsMembers(img);
    forall p: (int, int) | 0 <= p.0 < img.width && 0 <= p.1 < img.height
      ensures !IsContentAt(img, p.0, p.1)
    {
      OffsetInBounds(img, p.0, p.1);
      var i := PixelOffset(img.width, p.0, p.1);
      EqualChannelsNeverContent(img.data[i]);
    }
    ContentExtentIsExact(img);
    ContentExtentInImage(img, ContentExtent(img));
  }
}
