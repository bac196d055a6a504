/** How a pane image is cropped to the part of its pane that is on screen
    (`clipped_placement` and `scale_pixels`). The source treats columns and rows
    by the same arithmetic; here that arithmetic is written once, for one axis. */
module KittyClipping {
  import opened Machine

  datatype ImageFormat = Rgb | Rgba | Png

  datatype CellSize = CellSize(widthPx: U32, heightPx: U32)

  datatype RenderInfo = RenderInfo(
    pixelWidth: U32, pixelHeight: U32,
    gridCols: U32, gridRows: U32,
    viewportCol: I32, viewportRow: I32,
    sourceX: U32, sourceY: U32,
    sourceWidth: U32, sourceHeight: U32)

  datatype Clipped = Clipped(
    x: U16, y: U16, cols: U32, rows: U32,
    sourceX: U32, sourceY: U32, sourceWidth: U32, sourceHeight: U32,
    xOffset: U32, yOffset: U32)

  /** What is shown along one axis: `cells` cells from cell `start` of the pane, filled from
      `sourceLen` pixels from pixel `source` of the image. */
  datatype Slice = Slice(start: nat, cells: nat, source: U32, sourceLen: U32, offset: U32)

  /** One axis of an image placement, before clipping. */
  datatype Axis = Axis(
    view: I32, grid: U32, size: U16, cellPx: U32,
    renderPx: U32, declaredPx: U32, imagePx: U32, sourceOff: U32, cellOffset: U32)

  function FormatCode(format: ImageFormat): U32 {
    match format
    case Rgb => 24
    case Rgba => 32
    case Png => 100
  }

  // The product of two 32-bit values fits in 64 bits, so only the final cast saturates.
  function ScalePixels(value: U32, source: U32, dest: U32): U32 {
    MulIsNat(value, source);
    Min(value * source / Max(dest, 1), U32_MAX)
  }

  // Negating the smallest 32-bit integer saturates one short of its magnitude.
  function ClippedCells(view: I32): U32 {
    if view >= 0 then 0 else Min(0 - view, 0x7FFF_FFFF)
  }

  function VisibleCells(view: I32, grid: U32, size: U16): nat {
    var start := Max(view, 0);
    if start >= size then 0 else Min(SatSub(grid, ClippedCells(view)), size - start)
  }

  function SourceSpan(a: Axis): U32 {
    if a.declaredPx == 0 then a.imagePx else a.declaredPx
  }

  function PixelSpan(a: Axis): U32 {
    Max(Max(a.renderPx, SatMul32(a.grid, a.cellPx)), 1)
  }

  function CropPixels(a: Axis): U32 {
    ScalePixels(SatMul32(ClippedCells(a.view), a.cellPx), SourceSpan(a), PixelSpan(a))
  }

  function ShownPixels(a: Axis): U32 {
    ScalePixels(SatMul32(VisibleCells(a.view, a.grid, a.size), a.cellPx), SourceSpan(a), PixelSpan(a))
  }

  function ClipAxis(a: Axis): Option<Slice> {
    var cells := VisibleCells(a.view, a.grid, a.size);
    if a.size == 0 || a.grid == 0 || cells == 0 then
      None
    else
      var source := (a.sourceOff + CropPixels(a)) % (U32_MAX + 1);
      var sourceLen := Min(Max(ShownPixels(a), 1), SatSub(a.imagePx, source));
      if sourceLen == 0 then
        None
      else
        Some(Slice(Max(a.view, 0), cells, source, sourceLen, if a.view >= 0 then a.cellOffset else 0))
  }

  function ColumnAxis(area: Rect, cell: CellSize, r: RenderInfo, imageWidth: U32, xOffset: U32): Axis {
    Axis(r.viewportCol, r.gridCols, area.width, cell.widthPx,
         r.pixelWidth, r.sourceWidth, imageWidth, r.sourceX, xOffset)
  }

  function RowAxis(area: Rect, cell: CellSize, r: RenderInfo, imageHeight: U32, yOffset: U32): Axis {
    Axis(r.viewportRow, r.gridRows, area.height, cell.heightPx,
         r.pixelHeight, r.sourceHeight, imageHeight, r.sourceY, yOffset)
  }

  function Clip(area: Rect, cell: CellSize, r: RenderInfo,
                imageWidth: U32, imageHeight: U32, xOffset: U32, yOffset: U32): Option<Clipped> {
    match (ClipAxis(ColumnAxis(area, cell, r, imageWidth, xOffset)),
           ClipAxis(RowAxis(area, cell, r, imageHeight, yOffset)))
    case (Some(h), Some(v)) =>
      Some(Clipped(area.x + h.start, area.y + v.start, h.cells, v.cells,
                   h.source, v.source, h.sourceLen, v.sourceLen, h.offset, v.offset))
    case _ =>
      None
  }

  // ----- what clipping means -----

  /** Length of the part of the grid `view .. view + grid` that lies in the pane `0 .. size`. */
  function Overlap(view: int, grid: nat, size: nat): nat {
    Max(0, Min(size, view + grid) - Max(view, 0))
  }

  /** The saturating negation can only be observed for the smallest column number, and only by a
      grid that reaches into the pane without filling it. */
  predicate NegationObservable(view: I32, grid: U32, size: U16) {
    view == I32_MIN && 0x8000_0000 <= grid < 0x8000_0000 + size
  }

  /** The cells shown are the overlap of the image's grid with the pane, exactly unless the
      saturated negation is observable. */
  lemma VisibleCellsAreTheOverlap(view: I32, grid: U32, size: U16)
    ensures VisibleCells(view, grid, size) == Overlap(view, grid, size)
       <==> !NegationObservable(view, grid, size)
  {
    assert view == I32_MIN ==> ClippedCells(view) == 0x7FFF_FFFF;
    assert I32_MIN < view < 0 ==> ClippedCells(view) == -view;
  }

  /** A slice never leaves the pane or the image, and is empty in neither. */
  lemma SliceInsidePaneAndImage(a: Axis)
    requires ClipAxis(a).Some?
    ensures var s := ClipAxis(a).value;
      && 1 <= s.cells && s.start + s.cells <= a.size
      && 1 <= s.sourceLen && s.source + s.sourceLen <= a.imagePx
  {}

  /** No 32-bit product or sum on this axis saturates or wraps. */
  predicate NoOverflow(a: Axis) {
    a.grid * a.cellPx <= U32_MAX && a.sourceOff + SourceSpan(a) <= U32_MAX
  }

  lemma QuotientBelow(v: nat, dest: nat)
    requires dest > 0
    ensures 0 <= (v / dest) * dest <= v
  {}

  lemma Distribute(a: nat, b: nat, c: nat)
    ensures (a + b) * c == a * c + b * c
  {}

  lemma QuotientSumBelow(v: nat, w: nat, dest: nat)
    requires dest > 0
    ensures (v / dest + w / dest) * dest <= v + w
  {
    QuotientBelow(v, dest);
    QuotientBelow(w, dest);
    Distribute(v / dest, w / dest, dest);
  }

  lemma SplitProductBelow(x: nat, y: nat, span: nat, dest: nat)
    requires x + y <= dest
    ensures 0 <= x * span && 0 <= y * span && x * span + y * span <= dest * span
  {
    MulIsNat(x, span);
    MulIsNat(y, span);
    Distribute(x, y, span);
    MulMonotone(x + y, dest, span);
  }

  lemma QuotientsAddUp(x: nat, y: nat, span: nat, dest: nat)
    requires dest > 0 && x + y <= dest
    ensures x * span >= 0 && y * span >= 0
    ensures x * span / dest + y * span / dest <= span
  {
    SplitProductBelow(x, y, span, dest);
    SumOfQuotients(x * span, y * span, span, dest);
  }

  lemma SumOfQuotients(v: nat, w: nat, span: nat, dest: nat)
    requires dest > 0 && v + w <= dest * span
    ensures v / dest + w / dest <= span
  {
    QuotientSumBelow(v, w, dest);
    Commute(dest, span);
    MulCancel(v / dest + w / dest, span, dest);
  }

  lemma Commute(a: nat, b: nat)
    ensures a * b == b * a
  {}

  lemma MulMonotone(a: nat, b: nat, c: nat)
    requires a <= b
    ensures a * c <= b * c
  {}

  lemma MulCancel(a: nat, b: nat, c: nat)
    requires a * c <= b * c && c > 0
    ensures a <= b
  {
    assert (b + 1) * c == b * c + c;
    if a > b {
      MulMonotone(b + 1, a, c);
    }
  }

  /** The crop starts inside the declared source rectangle and, unless it had to be raised to
      one pixel, ends inside it too. */
  lemma CropStaysInDeclaredSource(a: Axis)
    requires ClipAxis(a).Some? && NoOverflow(a)
    ensures var s := ClipAxis(a).value;
      && a.sourceOff <= s.source <= a.sourceOff + SourceSpan(a)
      && (s.source + s.sourceLen <= a.sourceOff + SourceSpan(a) || (ShownPixels(a) == 0 && s.sourceLen == 1))
  {
    PixelsInSpan(a);
    assert CropPixels(a) + ShownPixels(a) <= SourceSpan(a);
  }

  lemma ScaledExactly(value: U32, source: U32, dest: U32)
    requires dest > 0 && value <= dest
    ensures 0 <= value * source && ScalePixels(value, source, dest) == value * source / dest <= source
  {
    MulIsNat(value, source);
    MulMonotone(value, dest, source);
    SumOfQuotients(value * source, 0, source, dest);
  }

  lemma PixelsInSpan(a: Axis)
    requires VisibleCells(a.view, a.grid, a.size) > 0 && NoOverflow(a)
    ensures CropPixels(a) + ShownPixels(a) <= SourceSpan(a)
  {
    var left, cells := ClippedCells(a.view), VisibleCells(a.view, a.grid, a.size);
    assert left + cells <= a.grid;
    SplitProductBelow(left, cells, a.cellPx, a.grid);
    var crop, shown: nat := left * a.cellPx, cells * a.cellPx;
    assert SatMul32(left, a.cellPx) == crop && SatMul32(cells, a.cellPx) == shown;
    assert crop + shown <= PixelSpan(a);
    ScaledExactly(crop, SourceSpan(a), PixelSpan(a));
    ScaledExactly(shown, SourceSpan(a), PixelSpan(a));
    QuotientsAddUp(crop, shown, SourceSpan(a), PixelSpan(a));
  }

  /** Both axes together: the placed rectangle is non-empty and inside the pane, its source
      rectangle is non-empty and inside the image. */
  lemma ClippedInsidePaneAndImage(area: Rect, cell: CellSize, r: RenderInfo,
                                  imageWidth: U32, imageHeight: U32, xOffset: U32, yOffset: U32)
    requires Clip(area, cell, r, imageWidth, imageHeight, xOffset, yOffset).Some?
    ensures var c := Clip(area, cell, r, imageWidth, imageHeight, xOffset, yOffset).value;
      && 1 <= c.cols && area.x <= c.x && c.x + c.cols <= area.x + area.width
      && 1 <= c.rows && area.y <= c.y && c.y + c.rows <= area.y + area.height
      && 1 <= c.sourceWidth && c.sourceX + c.sourceWidth <= imageWidth
      && 1 <= c.sourceHeight && c.sourceY + c.sourceHeight <= imageHeight
  {
    SliceInsidePaneAndImage(ColumnAxis(area, cell, r, imageWidth, xOffset));
    SliceInsidePaneAndImage(RowAxis(area, cell, r, imageHeight, yOffset));
  }

  // ----- which part of the image is shown -----

  /** Where `value` of `span` screen pixels falls among `source` image pixels: rounded down. */
  predicate FallsOn(pixel: int, value: nat, source: nat, span: nat) {
    pixel * span <= value * source < (pixel + 1) * span
  }

  /** What a slice along one axis must be: it starts where the image enters the pane and covers the
      overlap; it crops the hidden cells' share of the source, and shows the share of the cells
      shown, at least one pixel and no further than the image. */
  predicate ShowsOverlap(view: int, grid: nat, size: nat, cellPx: nat, renderPx: nat, declaredPx: nat,
                         imagePx: nat, sourceOff: nat, cellOffset: nat,
                         start: int, cells: int, source: int, sourceLen: int, offset: int)
  {
    var hidden := if view < 0 then -view else 0;
    var span := Max(Max(renderPx, Product(grid, cellPx)), 1);
    var pixels := if declaredPx == 0 then imagePx else declaredPx;
    && start == (if view < 0 then 0 else view)
    && offset == (if view < 0 then 0 else cellOffset)
    && cells == Overlap(view, grid, size) > 0
    && FallsOn(source - sourceOff, Product(hidden, cellPx), pixels, span)
    && 1 <= sourceLen && source + sourceLen <= imagePx
    && (sourceLen > 1 ==> sourceLen * span <= Product(cells, cellPx) * pixels)
    && (source + sourceLen < imagePx ==> Product(cells, cellPx) * pixels < (sourceLen + 1) * span)
  }

  function Product(a: nat, b: nat): nat {
    MulIsNat(a, b);
    a * b
  }

  lemma ScaledFallsOn(value: nat, source: nat, dest: nat)
    requires dest > 0
    ensures 0 <= value * source && FallsOn(value * source / dest, value, source, dest)
  {
    MulIsNat(value, source);
    QuotientBounds(value * source, dest);
  }

  lemma QuotientBounds(v: nat, dest: nat)
    requires dest > 0
    ensures (v / dest) * dest <= v < (v / dest + 1) * dest
  {
    assert v == (v / dest) * dest + v % dest;
    assert (v / dest + 1) * dest == (v / dest) * dest + dest;
  }

  /** Where a pixel boundary lies against a scaled value. */
  lemma BoundaryOfQuotient(v: nat, dest: nat, n: nat)
    requires dest > 0
    ensures v / dest >= n <==> n * dest <= v
  {
    QuotientBounds(v, dest);
    if v / dest >= n {
      MulMonotone(n, v / dest, dest);
    } else {
      MulMonotone(v / dest + 1, n, dest);
    }
  }

  predicate Representable(a: Axis) {
    NoOverflow(a) && a.view > I32_MIN
  }

  lemma ExactPixels(a: Axis)
    requires Representable(a) && VisibleCells(a.view, a.grid, a.size) > 0
    ensures var hidden := if a.view < 0 then -a.view else 0;
      var cells := VisibleCells(a.view, a.grid, a.size);
      && hidden + cells <= a.grid
      && PixelSpan(a) == Max(Max(a.renderPx, Product(a.grid, a.cellPx)), 1)
      && Product(hidden, a.cellPx) <= PixelSpan(a) && Product(cells, a.cellPx) <= PixelSpan(a)
      && CropPixels(a) == Product(hidden, a.cellPx) * SourceSpan(a) / PixelSpan(a) <= SourceSpan(a)
      && ShownPixels(a) == Product(cells, a.cellPx) * SourceSpan(a) / PixelSpan(a)
  {
    var hidden: nat := if a.view < 0 then -a.view else 0;
    var cells := VisibleCells(a.view, a.grid, a.size);
    assert ClippedCells(a.view) == hidden && hidden + cells <= a.grid;
    SplitProductBelow(hidden, cells, a.cellPx, a.grid);
    assert SatMul32(hidden, a.cellPx) == Product(hidden, a.cellPx);
    assert SatMul32(cells, a.cellPx) == Product(cells, a.cellPx);
    ScaledExactly(Product(hidden, a.cellPx), SourceSpan(a), PixelSpan(a));
    ScaledExactly(Product(cells, a.cellPx), SourceSpan(a), PixelSpan(a));
  }

  /** Without 32-bit overflow a slice shows exactly the overlap of image and pane, pixel by pixel. */
  lemma SliceShowsOverlap(a: Axis)
    requires ClipAxis(a).Some? && Representable(a)
    ensures var s := ClipAxis(a).value;
      ShowsOverlap(a.view, a.grid, a.size, a.cellPx, a.renderPx, a.declaredPx, a.imagePx, a.sourceOff, a.cellOffset,
                   s.start, s.cells, s.source, s.sourceLen, s.offset)
  {
    var s := ClipAxis(a).value;
    var hidden: nat := if a.view < 0 then -a.view else 0;
    var cells := VisibleCells(a.view, a.grid, a.size);
    ExactPixels(a);
    VisibleCellsAreTheOverlap(a.view, a.grid, a.size);
    ScaledFallsOn(Product(hidden, a.cellPx), SourceSpan(a), PixelSpan(a));
    assert s.source == a.sourceOff + CropPixels(a);
    var shown := Product(cells, a.cellPx) * SourceSpan(a);
    MulIsNat(Product(cells, a.cellPx), SourceSpan(a));
    QuotientBounds(shown, PixelSpan(a));
    if s.sourceLen > 1 {
      BoundaryOfQuotient(shown, PixelSpan(a), s.sourceLen);
    }
    if s.source + s.sourceLen < a.imagePx {
      BoundaryOfQuotient(shown, PixelSpan(a), s.sourceLen + 1);
    }
  }

  /** And nothing is shown exactly when nothing overlaps or the image ends before the crop does. */
  lemma NothingShownExactly(a: Axis)
    requires Representable(a)
    ensures var hidden := if a.view < 0 then -a.view else 0;
      var span := Max(Max(a.renderPx, Product(a.grid, a.cellPx)), 1);
      var pixels := if a.declaredPx == 0 then a.imagePx else a.declaredPx;
      ClipAxis(a).None?
      <==> || Overlap(a.view, a.grid, a.size) == 0
           || a.imagePx <= a.sourceOff
           || (a.imagePx - a.sourceOff) * span <= Product(hidden, a.cellPx) * pixels
  {
    VisibleCellsAreTheOverlap(a.view, a.grid, a.size);
    if VisibleCells(a.view, a.grid, a.size) > 0 {
      var hidden: nat := if a.view < 0 then -a.view else 0;
      ExactPixels(a);
      MulIsNat(Product(hidden, a.cellPx), SourceSpan(a));
      if a.sourceOff < a.imagePx {
        BoundaryOfQuotient(Product(hidden, a.cellPx) * SourceSpan(a), PixelSpan(a), a.imagePx - a.sourceOff);
      }
    }
  }

  /** Both axes of a clipped placement: columns and rows each show their overlap, from the pane's
      own corner. */
  lemma ClipShowsOverlap(area: Rect, cell: CellSize, r: RenderInfo,
                         imageWidth: U32, imageHeight: U32, xOffset: U32, yOffset: U32)
    requires Clip(area, cell, r, imageWidth, imageHeight, xOffset, yOffset).Some?
    requires Representable(ColumnAxis(area, cell, r, imageWidth, xOffset))
    requires Representable(RowAxis(area, cell, r, imageHeight, yOffset))
    ensures var c := Clip(area, cell, r, imageWidth, imageHeight, xOffset, yOffset).value;
      && ShowsOverlap(r.viewportCol, r.gridCols, area.width, cell.widthPx, r.pixelWidth, r.sourceWidth,
                      imageWidth, r.sourceX, xOffset, c.x - area.x, c.cols, c.sourceX, c.sourceWidth, c.xOffset)
      && ShowsOverlap(r.viewportRow, r.gridRows, area.height, cell.heightPx, r.pixelHeight, r.sourceHeight,
                      imageHeight, r.sourceY, yOffset, c.y - area.y, c.rows, c.sourceY, c.sourceHeight, c.yOffset)
  {
    SliceShowsOverlap(ColumnAxis(area, cell, r, imageWidth, xOffset));
    SliceShowsOverlap(RowAxis(area, cell, r, imageHeight, yOffset));
  }
}
