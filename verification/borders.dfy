/** The integer layout arithmetic of the two export paths
    (icon_font.py:174-175, 192-199, 262-269): the size the icon is rendered
    at, and where the cropped glyph is pasted so that it sits centred on the
    output canvas. The glyph rendering itself is not modelled; its bounding
    box comes in as a parameter. */
module Borders {
  import opened Results

  /** Icons smaller than this are rendered at this size and scaled down. */
  const MinRenderSize: int := 150

  /** `max(150, size)`: the side of the canvas the icon is drawn on. */
  function RenderSize(size: int): (r: int)
    ensures r >= MinRenderSize && r >= size
    ensures r == size || r == MinRenderSize
  {
    if size < MinRenderSize then MinRenderSize else size
  }

  /** The side the rendered canvas is resized to at the end, if any: the
      requested size, whenever it differs from the render size. */
  function ResizeTarget(size: int): (r: Option<int>)
    ensures r.Some? <==> size < MinRenderSize
    ensures r.Some? ==> r.value == size && r.value < RenderSize(size)
  {
    if size != RenderSize(size) then Some(size) else None
  }

  /** Python 3's `int(n / 2)`: true division, then truncation toward zero.
      Dafny's `/` rounds toward negative infinity instead, so the negative
      case is written out. */
  function TruncHalf(n: int): (r: int)
    ensures n >= 0 ==> 0 <= n - 2 * r <= 1
    ensures n < 0 ==> 0 <= 2 * r - n <= 1
  {
    if n >= 0 then n / 2 else -((-n) / 2)
  }

  /** Truncation is symmetric about zero, which floor division is not. */
  lemma TruncHalfIsOdd(n: int)
    ensures TruncHalf(-n) == -TruncHalf(n)
  {
  }

  /** `int(-3 / 2)` is -1 in Python 3, where `-3 // 2` is -2. */
  lemma TruncHalfNotFloor()
    ensures TruncHalf(-3) == -1 && -3 / 2 == -2
  {
  }

  /** A bounding box as PIL's `getbbox` returns it: left and upper edges
      included, right and lower edges excluded. */
  datatype BBox = BBox(left: int, upper: int, right: int, lower: int)
  {
    function Width(): int { right - left }
    function Height(): int { lower - upper }
  }

  /** `getbbox` of a `size`×`size` image: a box inside the canvas. */
  predicate InCanvas(b: BBox, size: int) {
    0 <= b.left <= b.right <= size && 0 <= b.upper <= b.lower <= size
  }

  /** `int((size - extent) / 2)`: the margin left before a piece `extent`
      pixels wide so that it sits centred on a canvas `size` pixels wide. */
  function Border(size: int, extent: int): (r: int)
    ensures 0 <= extent <= size ==> 0 <= r && 2 * r + extent <= size <= 2 * r + extent + 1
    ensures extent > size ==> r <= 0
  {
    TruncHalf(size - extent)
  }

  /** A wider piece gets a margin no wider. */
  lemma BorderAntitone(size: int, e1: int, e2: int)
    requires e1 <= e2
    ensures Border(size, e2) <= Border(size, e1)
  {
  }

  datatype Extent = Extent(width: int, height: int)
  datatype Offset = Offset(x: int, y: int)

  /** What an export pastes: a piece of the rendered image, at an offset, on
      a transparent canvas of the given side. */
  datatype Layout = Layout(canvas: int, piece: Extent, at: Offset)

  /** Why the layout cannot be computed: `bbox` is `None` (the image was
      blank), so `bbox[2]` raises. */
  datatype LayoutError = NoBoundingBox

  /** The pasted piece lies wholly inside the canvas. */
  predicate Fits(l: Layout) {
    && 0 <= l.at.x && l.at.x + l.piece.width <= l.canvas
    && 0 <= l.at.y && l.at.y + l.piece.height <= l.canvas
  }

  /** The margins on either side of the piece differ by at most one pixel,
      the extra pixel going to the right and the bottom. */
  predicate Centred(l: Layout) {
    && 0 <= l.canvas - l.piece.width - 2 * l.at.x <= 1
    && 0 <= l.canvas - l.piece.height - 2 * l.at.y <= 1
  }

  /** `(border_w, border_h)` for a bounding box (icon_font.py:195-196 and
      265-266); a missing box is the `TypeError` of `bbox[2]`. */
  function Offsets(size: int, bbox: Option<BBox>): (r: Result<Offset, LayoutError>)
    ensures r.Success? <==> bbox.Some?
    ensures r.Success? && InCanvas(bbox.value, size) ==>
      var b := bbox.value;
      && 0 <= r.value.x && r.value.x + b.Width() <= size <= 2 * r.value.x + b.Width() + 1
      && 0 <= r.value.y && r.value.y + b.Height() <= size <= 2 * r.value.y + b.Height() + 1
  {
    match bbox
    case None => Failure(NoBoundingBox)
    case Some(b) => Success(Offset(Border(size, b.Width()), Border(size, b.Height())))
  }

  /** `export_icon_no_wrapper` (icon_font.py:174-199): render at
      `max(150, size)`, crop to the glyph's bounding box, paste it at the
      borders computed from that same box. */
  function NoWrapperLayout(size: int, bbox: Option<BBox>): (r: Result<Layout, LayoutError>)
    ensures r.Success? <==> bbox.Some?
    ensures r.Success? ==> r.value.canvas == RenderSize(size) && r.value.canvas >= MinRenderSize
    ensures r.Success? ==> r.value.piece == Extent(bbox.value.Width(), bbox.value.Height())
    ensures r.Success? && InCanvas(bbox.value, r.value.canvas) ==> Fits(r.value) && Centred(r.value)
  {
    var canvas := RenderSize(size);
    match Offsets(canvas, bbox)
    case Failure(e) => Failure(e)
    case Success(at) => Success(Layout(canvas, Extent(bbox.value.Width(), bbox.value.Height()), at))
  }

  /** `export_icon_with_wrapper` as written (icon_font.py:249-269): the canvas
      is `size` itself, the image is cropped to the WRAPPER's box `bbox2`
      when there is one, but the borders are computed from the INNER icon's
      box `bbox`. So the pasted piece is centred only when the two boxes'
      extents differ by at most a pixel, and always when they are equal. */
  function WrapperLayout(size: int, inner: Option<BBox>, wrapper: Option<BBox>): (r: Result<Layout, LayoutError>)
    ensures r.Success? <==> inner.Some?
    ensures r.Success? ==> r.value.canvas == size
    ensures r.Success? ==>
      r.value.piece == (if wrapper.Some? then Extent(wrapper.value.Width(), wrapper.value.Height()) else Extent(size, size))
    ensures r.Success? ==> Offsets(size, inner) == Success(r.value.at)
    ensures r.Success? && wrapper.Some? && InCanvas(inner.value, size) && Centred(r.value) ==>
      && -1 <= wrapper.value.Width() - inner.value.Width() <= 1
      && -1 <= wrapper.value.Height() - inner.value.Height() <= 1
    ensures r.Success? && wrapper.Some? && InCanvas(inner.value, size)
      && wrapper.value.Width() == inner.value.Width() && wrapper.value.Height() == inner.value.Height()
      ==> Fits(r.value) && Centred(r.value)
  {
    var piece := match wrapper
      case Some(b) => Extent(b.Width(), b.Height())
      case None => Extent(size, size);
    match Offsets(size, inner)
    case Failure(e) => Failure(e)
    case Success(at) => Success(Layout(size, piece, at))
  }

  /** A wrapper that fills the canvas around a small inner glyph: both boxes
      lie inside the canvas, yet the wrapper piece is pasted 40 pixels in and
      runs 40 pixels past the right and bottom edges. */
  lemma WrapperOverruns()
    ensures InCanvas(BBox(40, 40, 60, 60), 100) && InCanvas(BBox(0, 0, 100, 100), 100)
    ensures WrapperLayout(100, Some(BBox(40, 40, 60, 60)), Some(BBox(0, 0, 100, 100)))
      == Success(Layout(100, Extent(100, 100), Offset(40, 40)))
    ensures !Fits(Layout(100, Extent(100, 100), Offset(40, 40)))
  {
  }

  /** Whenever the wrapper's box is two or more pixels wider than the inner
      glyph's, the pasted wrapper is off centre, whatever the sizes. */
  lemma WrapperOffCentre(size: int, inner: BBox, wrapper: BBox)
    requires InCanvas(inner, size) && InCanvas(wrapper, size)
    requires wrapper.Width() >= inner.Width() + 2
    ensures WrapperLayout(size, Some(inner), Some(wrapper)).Success?
    ensures !Centred(WrapperLayout(size, Some(inner), Some(wrapper)).value)
  {
  }

  /** The box `scale_font` hands back as written: `getbbox` of the image it
      creates (icon_font.py:101) and never draws on, which is `None`. */
  const UndrawnBBox: Option<BBox> := None

  /** As written, both exports therefore stop at `bbox[2]` (icon_font.py:195
      and 265) before anything is pasted. */
  lemma AsWrittenExportsFail(size: int, wrapper: Option<BBox>)
    ensures NoWrapperLayout(size, UndrawnBBox) == Failure(NoBoundingBox)
    ensures WrapperLayout(size, UndrawnBBox, wrapper) == Failure(NoBoundingBox)
  {
  }

  /** The wrapper layout with the borders computed from the box the image is
      actually cropped to, as the no-wrapper path does. */
  function CentredWrapperLayout(size: int, wrapper: Option<BBox>): (r: Result<Layout, LayoutError>)
    ensures r.Success? <==> wrapper.Some?
    ensures r.Success? ==> r.value.canvas == size
    ensures r.Success? ==> r.value.piece == Extent(wrapper.value.Width(), wrapper.value.Height())
    ensures r.Success? && InCanvas(wrapper.value, size) ==> Fits(r.value) && Centred(r.value)
  {
    match Offsets(size, wrapper)
    case Failure(e) => Failure(e)
    case Success(at) => Success(Layout(size, Extent(wrapper.value.Width(), wrapper.value.Height()), at))
  }

  /** On a canvas already at the render size, the corrected wrapper layout is
      the no-wrapper layout of the wrapper's box. */
  lemma CentredWrapperMatchesNoWrapper(size: int, wrapper: BBox)
    requires size >= MinRenderSize
    ensures CentredWrapperLayout(size, Some(wrapper)) == NoWrapperLayout(size, Some(wrapper))
  {
  }
}
