/**
  The geometry of modules/image_processor.py: the zoom crop box computed
  from a normalised focus point, the centred trim to the video's aspect
  ratio, and the size and position of the artwork in the closing
  "museum view" frame. Pixel work (Pillow's crop, resize, paste and text
  drawing) is not modelled; coordinates are exact reals and Python's
  `int()` of a non-negative value is `Floor`.
*/
module ImageProcessor {
  import opened Utils

  /** Side margin budget of the museum view (both sides together), from modules/constants.py. */
  const MuseumPadding: int := 200
  /** Height of the text band under the artwork in the museum view, from modules/constants.py. */
  const MuseumTextHeight: int := 550

  /** A crop rectangle `(left, top, right, bottom)` in whole pixels. */
  datatype CropBox = CropBox(left: int, top: int, right: int, bottom: int)

  /** A real interval `[lo, hi]` along one axis, before truncation to pixels. */
  datatype Span = Span(lo: real, hi: real)

  function Min(a: real, b: real): real {
    if a <= b then a else b
  }

  /** The interval of length `extent / zoom` centred on `extent * focus`. */
  function RequestedSpan(extent: int, focus: real, zoom: real): (s: Span)
    requires zoom != 0.0
    ensures s.hi - s.lo == extent as real / zoom
    ensures s.lo + s.hi == 2.0 * (extent as real * focus)
  {
    var size := extent as real / zoom;
    var center := extent as real * focus;
    Span(center - size / 2.0, center + size / 2.0)
  }

  /**
    The boundary handling of `_calculate_crop_box` along one axis: an
    interval overflowing the low end is shifted up to start at 0, one then
    overflowing the high end is shifted down to end at `extent`, and both
    ends are finally clamped into `[0, extent]`. A request that fits is
    translated, never shrunk; one that does not fit becomes the whole extent.
  */
  function FitSpan(s: Span, extent: int): (r: Span)
    requires extent >= 0
    ensures 0.0 <= r.lo <= extent as real && 0.0 <= r.hi <= extent as real
    ensures s.lo <= s.hi ==> r.lo <= r.hi && r.hi - r.lo == Min(s.hi - s.lo, extent as real)
    ensures s.lo <= s.hi <= s.lo + extent as real ==> r.hi - r.lo == s.hi - s.lo && r.lo - s.lo == r.hi - s.hi
    ensures 0.0 <= s.lo <= s.hi <= extent as real ==> r == s
    ensures s.lo + extent as real <= s.hi ==> r == Span(0.0, extent as real)
  {
    var e := extent as real;
    var t := ShiftDown(ShiftUp(s), e);
    Span(Clamp(t.lo, 0.0, e), Clamp(t.hi, 0.0, e))
  }

  /** An interval starting below 0 is moved up to start at 0. */
  function ShiftUp(s: Span): Span {
    if s.lo < 0.0 then Span(0.0, s.hi - s.lo) else s
  }

  /** An interval ending above `e` is moved down to end at `e`. */
  function ShiftDown(s: Span, e: real): Span {
    if s.hi > e then Span(s.lo - (s.hi - e), e) else s
  }

  /**
    The crop box as a function of the focus point: each axis is fitted on
    its own and both ends are truncated to pixels. The box lies inside the
    image; for zoom >= 1 each side is within a pixel of `1/zoom` of the
    image's, and for zoom <= 1 it is the whole image.
  */
  function CropBoxOf(imgWidth: int, imgHeight: int, x: real, y: real, zoom: real): (b: CropBox)
    requires imgWidth > 0 && imgHeight > 0 && zoom != 0.0
    ensures 0 <= b.left <= imgWidth && 0 <= b.right <= imgWidth
    ensures 0 <= b.top <= imgHeight && 0 <= b.bottom <= imgHeight
    ensures zoom > 0.0 ==> b.left <= b.right && b.top <= b.bottom
    ensures zoom >= 1.0 ==>
      && -1.0 < (b.right - b.left) as real - imgWidth as real / zoom < 1.0
      && -1.0 < (b.bottom - b.top) as real - imgHeight as real / zoom < 1.0
    ensures 0.0 < zoom <= 1.0 ==> b == CropBox(0, 0, imgWidth, imgHeight)
  {
    var sx := FitSpan(RequestedSpan(imgWidth, x, zoom), imgWidth);
    var sy := FitSpan(RequestedSpan(imgHeight, y, zoom), imgHeight);
    AxisFacts(imgWidth, x, zoom);
    AxisFacts(imgHeight, y, zoom);
    CropBox(sx.lo.Floor, sy.lo.Floor, sx.hi.Floor, sy.hi.Floor)
  }

  /**
    The edge handling of `_calculate_crop_box` on one axis, for the interval
    `[lo, hi]` in an image of size `extent`: shifted up off a low overflow,
    then down off a high overflow, then both ends clamped to `[0, extent]`.
  */
  method ShiftIntoImage(lo: real, hi: real, extent: int) returns (lo': real, hi': real)
    requires extent >= 0
    ensures Span(lo', hi') == FitSpan(Span(lo, hi), extent)
    ensures 0.0 <= lo' <= extent as real && 0.0 <= hi' <= extent as real
  {
    var e := extent as real;
    lo', hi' := lo, hi;
    if lo' < 0.0 {
      hi' := hi' - lo';
      lo' := 0.0;
    }
    if hi' > e {
      lo' := lo' - (hi' - e);
      hi' := e;
    }
    lo' := Clamp(lo', 0.0, e);
    hi' := Clamp(hi', 0.0, e);
  }

  /**
    `_calculate_crop_box`: the requested box of `1/zoom` of the image centred
    on `(x * imgWidth, y * imgHeight)`, shifted back inside from the edges it
    overflows, clamped to the image, and truncated to pixels. The source
    handles left, top, right, bottom in that order; the two axes do not
    interact, so each is handled in one call.
  */
  method CalculateCropBox(imgWidth: int, imgHeight: int, x: real, y: real, zoom: real) returns (box: CropBox)
    requires imgWidth > 0 && imgHeight > 0 && zoom != 0.0
    ensures box == CropBoxOf(imgWidth, imgHeight, x, y, zoom)
    ensures 0 <= box.left <= imgWidth && 0 <= box.right <= imgWidth
    ensures 0 <= box.top <= imgHeight && 0 <= box.bottom <= imgHeight
    ensures zoom > 0.0 ==> box.left <= box.right && box.top <= box.bottom
  {
    var w, h := imgWidth as real, imgHeight as real;
    var cropWidth := w / zoom;
    var cropHeight := h / zoom;
    var centerX := w * x;
    var centerY := h * y;
    var left := centerX - cropWidth / 2.0;
    var top := centerY - cropHeight / 2.0;
    var right := centerX + cropWidth / 2.0;
    var bottom := centerY + cropHeight / 2.0;
    assert Span(left, right) == RequestedSpan(imgWidth, x, zoom);
    assert Span(top, bottom) == RequestedSpan(imgHeight, y, zoom);
    left, right := ShiftIntoImage(left, right, imgWidth);
    top, bottom := ShiftIntoImage(top, bottom, imgHeight);
    box := CropBox(left.Floor, top.Floor, right.Floor, bottom.Floor);
  }

  /**
    Translate before clamp: with zoom >= 1 the fitted interval (before
    truncation) keeps the requested length `extent / zoom` and is the
    requested interval moved as a whole; when the request already lies
    inside the image it is kept as is, centred on `extent * focus`.
  */
  lemma ZoomKeepsCropSize(extent: int, focus: real, zoom: real)
    requires extent > 0 && zoom >= 1.0
    ensures var s := RequestedSpan(extent, focus, zoom);
      var r := FitSpan(s, extent);
      && r.hi - r.lo == extent as real / zoom
      && r.lo - s.lo == r.hi - s.hi
      && (0.0 <= s.lo && s.hi <= extent as real ==> r == s && r.lo + r.hi == 2.0 * (extent as real * focus))
  {
    ZoomedSize(extent, zoom);
  }

  /** A focus near the right edge: x = 0.95 at zoom 2 on a 1000 x 1000 image is shifted left to keep 500 pixels. */
  lemma CropNearEdgeExample()
    ensures CropBoxOf(1000, 1000, 0.95, 0.5, 2.0) == CropBox(500, 250, 1000, 750)
  {
    var sx := RequestedSpan(1000, 0.95, 2.0);
    assert sx == Span(700.0, 1200.0);
    assert ShiftDown(ShiftUp(sx), 1000.0) == Span(500.0, 1000.0);
    var sy := RequestedSpan(1000, 0.5, 2.0);
    assert sy == Span(250.0, 750.0);
  }

  /** What truncating both ends does to the length of an interval. */
  lemma FloorDifference(lo: real, hi: real)
    ensures -1.0 < (hi.Floor - lo.Floor) as real - (hi - lo) < 1.0
  {
  }

  /** The crop along one axis: ordered, of the requested size up to a pixel when zoom >= 1, whole when zoom <= 1. */
  lemma AxisFacts(extent: int, focus: real, zoom: real)
    requires extent > 0 && zoom != 0.0
    ensures var r := FitSpan(RequestedSpan(extent, focus, zoom), extent);
      && (zoom > 0.0 ==> r.lo.Floor <= r.hi.Floor)
      && (zoom >= 1.0 ==> -1.0 < (r.hi.Floor - r.lo.Floor) as real - extent as real / zoom < 1.0)
      && (0.0 < zoom <= 1.0 ==> r.lo.Floor == 0 && r.hi.Floor == extent)
  {
    var s := RequestedSpan(extent, focus, zoom);
    var r := FitSpan(s, extent);
    if zoom > 0.0 {
      ZoomedSize(extent, zoom);
      assert s.lo <= s.hi;
      FloorDifference(r.lo, r.hi);
    }
  }

  /** How `extent / zoom` compares with `extent` on either side of zoom 1. */
  lemma ZoomedSize(extent: int, zoom: real)
    requires extent > 0 && zoom > 0.0
    ensures zoom >= 1.0 ==> extent as real / zoom <= extent as real
    ensures zoom <= 1.0 ==> extent as real / zoom >= extent as real
  {
    var e := extent as real;
    if zoom >= 1.0 {
      assert e / zoom * zoom == e;
      assert e / zoom <= e / zoom * zoom;
    } else {
      assert e / zoom * zoom == e;
      assert e / zoom >= e / zoom * zoom;
    }
  }

  /**
    The box arithmetic of `_fit_to_aspect_ratio` on a `width x height` image:
    a relatively wider image keeps its height and is cut to the width
    `int(height * videoWidth / videoHeight)`, centred horizontally; any other
    keeps its width and is cut to the height `int(width * videoHeight /
    videoWidth)`, centred vertically. The result is the crop box within the
    image; the final resize to the video size is left to Pillow.
  */
  function FitToAspectRatio(width: int, height: int, videoWidth: int, videoHeight: int): (b: CropBox)
    requires width >= 0 && height > 0 && videoWidth > 0 && videoHeight > 0
    ensures 0 <= b.left <= b.right <= width && 0 <= b.top <= b.bottom <= height
  {
    var targetRatio := videoWidth as real / videoHeight as real;
    var currentRatio := width as real / height as real;
    AspectFacts(width, height, videoWidth, videoHeight);
    if currentRatio > targetRatio then
      var newWidth := (height as real * targetRatio).Floor;
      var cropLeft := (width - newWidth) / 2;
      CropBox(cropLeft, 0, cropLeft + newWidth, height)
    else
      var newHeight := (width as real / targetRatio).Floor;
      var cropTop := (height - newHeight) / 2;
      CropBox(0, cropTop, width, cropTop + newHeight)
  }

  /**
    A relatively wider image keeps its full height; its width is cut to
    `height * videoWidth / videoHeight` truncated, and the cut is split
    between the two sides, the right one taking the odd pixel.
  */
  lemma FitWiderImage(width: int, height: int, videoWidth: int, videoHeight: int)
    requires width >= 0 && height > 0 && videoWidth > 0 && videoHeight > 0
    requires width * videoHeight > videoWidth * height
    ensures var b := FitToAspectRatio(width, height, videoWidth, videoHeight);
      && b.top == 0 && b.bottom == height
      && (b.right - b.left) as real <= (height * videoWidth) as real / videoHeight as real < (b.right - b.left + 1) as real
      && b.left <= width - b.right <= b.left + 1
  {
    AspectFacts(width, height, videoWidth, videoHeight);
  }

  /**
    Any other image keeps its full width; its height is cut to
    `width * videoHeight / videoWidth` truncated, and the cut is split
    between top and bottom, the bottom taking the odd pixel.
  */
  lemma FitTallerImage(width: int, height: int, videoWidth: int, videoHeight: int)
    requires width >= 0 && height > 0 && videoWidth > 0 && videoHeight > 0
    requires width * videoHeight <= videoWidth * height
    ensures var b := FitToAspectRatio(width, height, videoWidth, videoHeight);
      && b.left == 0 && b.right == width
      && (b.bottom - b.top) as real <= (width * videoHeight) as real / videoWidth as real < (b.bottom - b.top + 1) as real
      && b.top <= height - b.bottom <= b.top + 1
  {
    AspectFacts(width, height, videoWidth, videoHeight);
  }

  /** The real-number facts behind FitToAspectRatio. */
  lemma AspectFacts(w: int, h: int, vw: int, vh: int)
    requires w >= 0 && h > 0 && vw > 0 && vh > 0
    ensures (w as real / h as real > vw as real / vh as real) <==> w * vh > vw * h
    ensures h as real * (vw as real / vh as real) == (h * vw) as real / vh as real
    ensures w as real / (vw as real / vh as real) == (w * vh) as real / vw as real
    ensures w * vh > vw * h ==> (h * vw) as real / vh as real < w as real
    ensures w * vh <= vw * h ==> (w * vh) as real / vw as real <= h as real
    ensures 0.0 <= (h * vw) as real / vh as real && 0.0 <= (w * vh) as real / vw as real
  {
    CompareRatios(w, h, vw, vh);
    MultiplyByRatio(vw, vh, h);
    DivideByRatio(vw, vh, w);
    ScaledBelow(h * vw, vh, w);
    ScaledBelow(w * vh, vw, h);
    assert 0 <= h * vw && 0 <= w * vh;
  }

  /**
    Trimming is not idempotent, unlike what a reader might expect of a
    "fit to ratio" step: a 10 x 17 image fitted to 1080 x 1920 becomes 9 x 17,
    and fitting that 9 x 17 image again removes one more row.
  */
  lemma FitToAspectRatioNotIdempotent()
    ensures FitToAspectRatio(10, 17, 1080, 1920) == CropBox(0, 0, 9, 17)
    ensures FitToAspectRatio(9, 17, 1080, 1920) == CropBox(0, 0, 9, 16)
  {
    assert (17.0 * (1080.0 / 1920.0)).Floor == 9;
    assert (9.0 / (1080.0 / 1920.0)).Floor == 16;
  }

  /**
    `_calculate_museum_image_size`: the artwork scaled to fit the area
    `(videoWidth - 200) x (videoHeight - 550)` with its aspect ratio kept.
    The source repeats the arithmetic of `calculate_aspect_ratio_fit`; here
    that shared definition is used directly.
  */
  function MuseumImageSize(videoWidth: int, videoHeight: int, imgWidth: int, imgHeight: int): (s: Size)
    requires imgWidth > 0 && imgHeight > 0 && videoHeight != MuseumTextHeight
    ensures videoWidth > MuseumPadding && videoHeight > MuseumTextHeight ==>
      && 0 <= s.width <= videoWidth - MuseumPadding
      && 0 <= s.height <= videoHeight - MuseumTextHeight
      && (s.width == videoWidth - MuseumPadding || s.height == videoHeight - MuseumTextHeight)
  {
    AspectRatioFit(imgWidth, imgHeight, videoWidth - MuseumPadding, videoHeight - MuseumTextHeight)
  }

  datatype Position = Position(x: int, y: int)

  /**
    `_calculate_museum_image_position`: the artwork centred horizontally on
    the frame and vertically in the part of the frame above the text band
    (floor division, so the far margin may be one pixel wider).
  */
  function MuseumImagePosition(videoWidth: int, videoHeight: int, s: Size): (p: Position)
    ensures 2 * p.x <= videoWidth - s.width <= 2 * p.x + 1
    ensures 2 * p.y <= videoHeight - s.height - MuseumTextHeight <= 2 * p.y + 1
  {
    Position((videoWidth - s.width) / 2, (videoHeight - s.height - MuseumTextHeight) / 2)
  }

  /**
    The museum layout stays on the canvas: the scaled artwork starts at
    least 100 pixels from the left and right edges, at or below the top,
    and ends above the text band.
  */
  lemma MuseumLayoutInside(videoWidth: int, videoHeight: int, imgWidth: int, imgHeight: int)
    requires imgWidth > 0 && imgHeight > 0
    requires videoWidth > MuseumPadding && videoHeight > MuseumTextHeight
    ensures var s := MuseumImageSize(videoWidth, videoHeight, imgWidth, imgHeight);
      var p := MuseumImagePosition(videoWidth, videoHeight, s);
      && p.x >= MuseumPadding / 2 && p.x + s.width <= videoWidth - MuseumPadding / 2
      && p.y >= 0 && p.y + s.height <= videoHeight - MuseumTextHeight
  {
  }
}
