/** The per-pixel classifier of the content-bounds detector: decides from the
    red, green and blue channels of one pixel whether it belongs to the image's
    content or to background and interface chrome. */
module PixelClassifier {

  /** One 8-bit colour channel, as read from an RGBA pixel buffer. */
  type Byte = x: int | 0 <= x < 256

  /** Pixels at or below this brightness are dark background. */
  const BrightnessThreshold: int := 45
  /** Pixels whose channels vary by at most this much are flat colour. */
  const ColorVariationThreshold: int := 35
  /** Channels that differ pairwise by less than this make a pixel grayish. */
  const GrayScaleThreshold: int := 15
  /** A grayish pixel strictly between these brightnesses is interface chrome. */
  const UIBrightnessLow: int := 50
  const UIBrightnessHigh: int := 200

  function Abs(x: int): (r: nat)
    ensures r == x || r == -x
  {
    if x < 0 then -x else x
  }

  function Min(a: int, b: int): (r: int)
    ensures r <= a && r <= b && (r == a || r == b)
  {
    if a < b then a else b
  }

  function Max(a: int, b: int): (r: int)
    ensures r >= a && r >= b && (r == a || r == b)
  {
    if a < b then b else a
  }

  /** Unweighted mean of the three channels, computed exactly (no truncation). */
  function Brightness(r: Byte, g: Byte, b: Byte): (v: real)
    ensures 3.0 * v == (r + g + b) as real
    ensures 0.0 <= v <= 255.0
  {
    (r + g + b) as real / 3.0
  }

  /** The largest pairwise absolute difference among the three channels. */
  function ColorVariation(r: Byte, g: Byte, b: Byte): (v: nat)
    ensures Abs(r - g) <= v && Abs(g - b) <= v && Abs(b - r) <= v
    ensures v == Abs(r - g) || v == Abs(g - b) || v == Abs(b - r)
  {
    Max(Max(Abs(r - g), Abs(g - b)), Abs(b - r))
  }

  /** All three pairwise channel differences are below GrayScaleThreshold,
      i.e. the colour variation is. */
  predicate IsGrayish(r: Byte, g: Byte, b: Byte)
    ensures IsGrayish(r, g, b) <==> ColorVariation(r, g, b) < GrayScaleThreshold
  {
    Abs(r - g) < GrayScaleThreshold &&
    Abs(g - b) < GrayScaleThreshold &&
    Abs(r - b) < GrayScaleThreshold
  }

  /** Grayish pixels of mid brightness: channel sum strictly between 150 and
      600, and too flat ever to pass the variation floor. */
  predicate IsUIElement(r: Byte, g: Byte, b: Byte)
    ensures IsUIElement(r, g, b) <==>
              ColorVariation(r, g, b) < GrayScaleThreshold &&
              3 * UIBrightnessLow < r + g + b < 3 * UIBrightnessHigh
  {
    IsGrayish(r, g, b) &&
    Brightness(r, g, b) < UIBrightnessHigh as real &&
    Brightness(r, g, b) > UIBrightnessLow as real
  }

  /** A pixel is content when it is bright enough, varied enough, and not
      grayish mid-brightness chrome; all three comparisons are strict. */
  predicate IsContentPixel(r: Byte, g: Byte, b: Byte)
    ensures IsContentPixel(r, g, b) ==> !IsGrayish(r, g, b)
  {
    Brightness(r, g, b) > BrightnessThreshold as real &&
    ColorVariation(r, g, b) > ColorVariationThreshold &&
    !IsUIElement(r, g, b)
  }

  /** Comparing the real-valued brightness with an integer threshold is the
      same as comparing the integer channel sum with three times it. */
  lemma BrightnessVersusSum(r: Byte, g: Byte, b: Byte, t: int)
    ensures Brightness(r, g, b) > t as real <==> r + g + b > 3 * t
    ensures Brightness(r, g, b) < t as real <==> r + g + b < 3 * t
    ensures Brightness(r, g, b) == t as real <==> r + g + b == 3 * t
  {
  }

  /** Content is strictly brighter than 45, i.e. its channel sum exceeds 135. */
  lemma ContentIsBright(r: Byte, g: Byte, b: Byte)
    requires IsContentPixel(r, g, b)
    ensures r + g + b > 3 * BrightnessThreshold
  {
    BrightnessVersusSum(r, g, b, BrightnessThreshold);
  }

  /** Content has a pairwise channel difference strictly above 35. */
  lemma ContentIsVaried(r: Byte, g: Byte, b: Byte)
    requires IsContentPixel(r, g, b)
    ensures Abs(r - g) > ColorVariationThreshold ||
            Abs(g - b) > ColorVariationThreshold ||
            Abs(b - r) > ColorVariationThreshold
  {
  }

  /** Every grayish pixel varies by at most 14, below the variation floor. */
  lemma GrayishIsFlat(r: Byte, g: Byte, b: Byte)
    requires IsGrayish(r, g, b)
    ensures ColorVariation(r, g, b) < GrayScaleThreshold
    ensures ColorVariation(r, g, b) <= ColorVariationThreshold
  {
    assert Abs(b - r) == Abs(r - b);
  }

  /** A grayish pixel is never content, whatever its brightness; in particular
      no grayish mid-brightness pixel is. */
  lemma GrayishNeverContent(r: Byte, g: Byte, b: Byte)
    requires IsGrayish(r, g, b)
    ensures !IsContentPixel(r, g, b)
  {
    GrayishIsFlat(r, g, b);
  }

  /** The interface-chrome exclusion never changes the verdict: the classifier
      is exactly "channel sum above 135 and variation above 35". */
  lemma ContentCharacterization(r: Byte, g: Byte, b: Byte)
    ensures IsContentPixel(r, g, b) <==>
            r + g + b > 3 * BrightnessThreshold && ColorVariation(r, g, b) > ColorVariationThreshold
  {
    BrightnessVersusSum(r, g, b, BrightnessThreshold);
    if IsUIElement(r, g, b) {
      GrayishIsFlat(r, g, b);
    }
  }

  /** A pixel whose three channels are equal (black, white, any gray) is never content. */
  lemma EqualChannelsNeverContent(v: Byte)
    ensures !IsContentPixel(v, v, v)
  {
    assert ColorVariation(v, v, v) == 0;
  }

  /** The threshold boundaries are exclusive: brightness exactly 45 or
      variation exactly 35 is not content. */
  lemma BoundariesAreExclusive(r: Byte, g: Byte, b: Byte)
    requires r + g + b == 3 * BrightnessThreshold || ColorVariation(r, g, b) == ColorVariationThreshold
    ensures !IsContentPixel(r, g, b)
  {
    ContentCharacterization(r, g, b);
  }

  /** Just past both boundaries, a non-grayish pixel is content: (70, 34, 34)
      has brightness 46 and variation 36. */
  lemma JustAboveBoundariesIsContent()
    ensures Brightness(70, 34, 34) == 46.0
    ensures ColorVariation(70, 34, 34) == 36
    ensures !IsGrayish(70, 34, 34)
    ensures IsContentPixel(70, 34, 34)
  {
  }
}
