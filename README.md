# Content-bounds detection, modelled in Dafny

The image cropper finds the "real content" in a screenshot or picture. It then
crops the image to that region, trimming dark letterboxing, flat padding and gray
interface chrome. This project models the two pieces of `findContentBounds` in
`app.js` that do the work:

- **Pixel classifier** (`pixel_classifier.dfy`, module `PixelClassifier`)
  - Decides from the red, green and blue bytes of one pixel whether that pixel is
    content.
  - The rules are: brightness (the mean of the three channels) above 45, colour
    variation (the largest pairwise channel difference) above 35, and not a
    grayish pixel of mid brightness between 50 and 200.
- **Bounds reducer** (`content_bounds.dfy`, module `ContentBounds`)
  - Scans the RGBA buffer row by row and widens a min/max accumulator by every
    content pixel.
  - If either detected span is below 100, it returns the whole image.
  - Otherwise the rectangle starts 5 before the extent's minimum column and row
    (clamped at 0), and its width and height are the span `maxX - minX` (resp.
    `maxY - minY`) plus 10, clamped at the distance from `minX` (resp. `minY`)
    to the far edge. With no clamp this covers 5 columns before the extent and
    4 after it.

The scan is an imperative method, `ScanContentExtent`, with nested loops. It is
proved equal to `ContentExtent`, a recursive specification of the scan. Lemmas
show that `ContentExtent` holds exactly the least and greatest column and row of
the set of content pixels. `CropRect` is the post-scan rectangle computation, and
`FindContentBounds` puts the two together.

Details of the model:

- **Brightness** is the exact rational `(r + g + b) / 3`; the double the source
  computes differs from it only by rounding, which does not change any comparison
  against the integer thresholds (see "## Left out").
- **Image size.** Width and height are natural numbers. The only requirement is
  that the buffer holds four bytes per pixel, as the canvas `ImageData` the source
  reads always does.

## Model

| member | source | states |
|---|---|---|
| PixelClassifier.Brightness | app.js:111 | the brightness is the exact mean of the three channels (three times it is their sum) and lies between 0 and 255 |
| PixelClassifier.IsGrayish | app.js:113-115 | a pixel is grayish (all three pairwise differences below 15) exactly when its colour variation is below 15 |
| PixelClassifier.IsUIElement | app.js:118 | a pixel is interface chrome exactly when its variation is below 15 and its channel sum lies strictly between 150 and 600 (brightness between 50 and 200) |
| PixelClassifier.IsContentPixel | app.js:110-124 | the classifier: brightness above 45, variation above 35 and not interface chrome; its contract states that no content pixel is grayish |
| PixelClassifier.ColorVariation | app.js:112 | the variation bounds all three pairwise absolute channel differences from above and equals one of them |
| PixelClassifier.BrightnessVersusSum | app.js:111 | brightness above, below or equal to an integer threshold is the channel sum above, below or equal to three times it |
| PixelClassifier.ContentIsBright | app.js:110-124 | every content pixel has channel sum above 135, i.e. brightness strictly above 45 |
| PixelClassifier.ContentIsVaried | app.js:110-124 | every content pixel has some pairwise channel difference strictly above 35 |
| PixelClassifier.GrayishIsFlat | app.js:112-115 | a grayish pixel (all pairwise differences below 15) has variation below 15, hence at most 35 |
| PixelClassifier.GrayishNeverContent | app.js:113-123 | no grayish pixel is content, whatever its brightness |
| PixelClassifier.ContentCharacterization | app.js:110-124 | a pixel is content exactly when its channel sum exceeds 135 and its variation exceeds 35, so the interface-chrome exclusion never changes the verdict |
| PixelClassifier.EqualChannelsNeverContent | app.js:110-124 | black, white and every neutral gray are never content |
| PixelClassifier.BoundariesAreExclusive | app.js:121-122 | brightness exactly 45 or variation exactly 35 is not content |
| PixelClassifier.JustAboveBoundariesIsContent | app.js:110-124 | (70, 34, 34) has brightness 46 and variation 36, is not grayish, and is content |
| ContentBounds.OffsetInBounds | app.js:132-135 | the red, green, blue and alpha bytes of every pixel inside the image lie inside a buffer of four bytes per pixel |
| ContentBounds.Rect | app.js:151-165 | the returned object: left, top, width and height |
| ContentBounds.Extent | app.js:103 | the four accumulators minX, maxX, minY and maxY |
| ContentBounds.ImageData | app.js:102 | the decoded buffer the function destructures: width, height and four bytes per pixel, row by row |
| ContentBounds.PixelOffset | app.js:132 | the offset of pixel (x, y) is a multiple of four whose quotient by four is the row-major pixel index y * width + x |
| ContentBounds.IsContentAt | app.js:132-137 | whether the classifier accepts the red, green and blue bytes at the pixel's offset |
| ContentBounds.EmptyExtent | app.js:103 | the initial accumulator (width, 0, height, 0): minimum not below maximum on both axes, so both spans are below 100 |
| ContentBounds.Widen | app.js:137-142 | the four min/max updates: the result contains the old extent and the visited position, and each bound is the old bound or the position's coordinate |
| ContentBounds.Accumulated | app.js:103-144 | the accumulator as the scan leaves it before each position; it is always the initial accumulator or a span inside the image |
| ContentBounds.ContentExtent | app.js:103-144 | the accumulator after the whole scan; it is the initial accumulator or a span inside the image |
| ContentBounds.ContentBeforeMembers | app.js:130-137 | before position (x, y) the scan has collected exactly the content pixels of the earlier rows and of the earlier columns of row y |
| ContentBounds.ContentPixelsMembers | app.js:130-137 | the content set holds exactly the in-image positions whose pixel the classifier accepts |
| ContentBounds.WidenAdds | app.js:137-142 | the four min/max updates turn the exact extent of a set into the exact extent of that set plus the visited pixel |
| ContentBounds.ScanStep | app.js:130-142 | one pixel visit, content or not, keeps the accumulator the exact extent of the content seen so far |
| ContentBounds.AccumulatedIsExtent | app.js:103-144 | at every scan position the accumulator is the exact extent of the content pixels visited, or the initial (width, 0, height, 0) when there are none |
| ContentBounds.ContentExtentIsExact | app.js:103-144 | after the whole scan, minX, maxX, minY and maxY are the least and greatest column and row of the content pixels, each attained by one of them |
| ContentBounds.ContentExtentInImage | app.js:103-144 | the exact extent is the initial accumulator or a span inside the image, and the image has content exactly when it is not the initial accumulator |
| ContentBounds.ScanContentExtent | app.js:102-144 | the nested row-major loops leave the accumulator equal to the scan specification and holding exactly the least and greatest column and row of the content pixels |
| ContentBounds.ExtentIsUnique | app.js:130-144 | any accumulator that is an exact extent of the content equals the scan's result, so the result is determined by the pixel data |
| ContentBounds.CropRect | app.js:146-165 | the post-scan step: a span below 100 in either axis yields the whole image, and an accumulator the scan can produce always yields a rectangle inside the image |
| ContentBounds.CropFallback | app.js:150-157 | a span below 100 in either axis (the initial accumulator included, by the contract of EmptyExtent) yields exactly the whole image |
| ContentBounds.CropPadsStart | app.js:161-162 | left and top sit 5 before the extent or at the image edge, never negative and never past the extent |
| ContentBounds.CropPadsEnd | app.js:163-164 | width and height are the span maxX - minX (resp. maxY - minY) plus 10, clamped at the distance from minX and minY to the far edge |
| ContentBounds.CropFarEdgeUnclamped | app.js:161-164 | with no clamp the rectangle runs from 5 before the extent's minimum to 4 past its maximum, on both axes |
| ContentBounds.CropPaddingExamples | app.js:161-164 | extent 2..120 in a 500-wide image gives columns 0..127 (the clamped left padding moves past maxX); extent 10..120 gives 5..124 |
| ContentBounds.CropInsideImage | app.js:150-165 | the rectangle is non-negative, ends inside the image, and is non-empty for an image of positive size |
| ContentBounds.CropCoversAwayFromFarEdge | app.js:160-165 | every extent column and row more than 5 away from the right or bottom edge lies in the rectangle |
| ContentBounds.CropMayCutFarEdge | app.js:163-164 | because the clamp measures from minX, an extent over columns 10..199 of a 200-wide image is cropped to 5..194 and column 199 falls outside |
| ContentBounds.FindContentBounds | app.js:101-166 | the result is the rectangle of the exact content extent; it lies inside the image, is non-empty for a non-empty image, and is the whole image when there is no content |
| ContentBounds.BoundsCoverContent | app.js:101-166 | when both spans reach 100, every content pixel more than 5 from the right and bottom edges is inside the returned rectangle |
| ContentBounds.AccumulatedAgrees | app.js:130-144 | two equally sized images whose pixels agree on being content accumulate the same extent at every scan position |
| ContentBounds.AlphaIgnored | app.js:132-135 | buffers that differ only in alpha bytes give the same extent |
| ContentBounds.UniformGrayFallsBack | app.js:101-166 | an image whose pixels all have equal channels has no content and yields the whole image |

## Left out

- The browser glue is outside the model. This covers `handleFiles`, `processImage`, `getImageData`, `createImageCard` and `downloadImage`, together with the drag-and-drop, progress and button event handlers (app.js:1-100 and 168-207). Image decoding, canvas drawing and cropping, data URLs and file download are I/O.
- `scanStep` is the constant 1 (app.js:127). The scan is modelled with step 1 only.
- Floating point: channels, indices and the accumulator are integers, which a double holds exactly at these sizes. Brightness at app.js:111 is modelled as the exact rational `(r + g + b) / 3`, not the rounded double the source computes. The two differ only by rounding, and that rounding never reaches or crosses an integer unless the sum is a multiple of 3 (when both are exact), so every comparison against 45, 50 and 200 gives the same answer. `BrightnessVersusSum` gives the integer form of those comparisons.
- CropRect: the rectangle does not always contain all content. The width and height clamp measures from minX and minY rather than from the padded left and top edges (app.js:163-164). Content in the last 5 columns or rows can therefore fall outside. This is the source's behaviour, kept as written. `CropCoversAwayFromFarEdge` and `BoundsCoverContent` state the coverage that does hold, and `CropMayCutFarEdge` exhibits the gap.
