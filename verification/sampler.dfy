/**
  The frame sampler of `capturePhoto`: a cover-fit crop of the video frame
  to the on-screen container's aspect ratio, drawn horizontally mirrored
  onto a canvas the size of the container.
 */
module FrameSampler {
  import opened Canvas2D

  /** The scale factor and source rectangle computed before `drawImage`. */
  datatype Crop = Crop(scale: real, x: real, y: real, width: real, height: real)
  {
    function Source(): Rect { Rect(x, y, width, height) }
  }

  function Max(a: real, b: real): real {
    if a >= b then a else b
  }

  /** Cover-fit: scale the video until it covers the container, then keep the
      centred part of the video that the container shows. Sizes are positive. */
  function CoverCrop(videoWidth: real, videoHeight: real,
                     containerWidth: real, containerHeight: real): (c: Crop)
    requires videoWidth > 0.0 && videoHeight > 0.0
    requires containerWidth > 0.0 && containerHeight > 0.0
    ensures c.scale > 0.0
    ensures c.width * c.scale == containerWidth && c.height * c.scale == containerHeight
    ensures 0.0 < c.width <= videoWidth && 0.0 < c.height <= videoHeight
    ensures c.x >= 0.0 && c.y >= 0.0
    ensures 2.0 * c.x + c.width == videoWidth && 2.0 * c.y + c.height == videoHeight
    ensures c.width * containerHeight == c.height * containerWidth
    ensures c.width == videoWidth || c.height == videoHeight
  {
    var scale := Max(containerWidth / videoWidth, containerHeight / videoHeight);
    var cropWidth := containerWidth / scale;
    var cropHeight := containerHeight / scale;
    CoverFitBounds(videoWidth, videoHeight, containerWidth, containerHeight, scale);
    Crop(scale, (videoWidth - cropWidth) / 2.0, (videoHeight - cropHeight) / 2.0,
         cropWidth, cropHeight)
  }

  lemma CoverFitBounds(vw: real, vh: real, cw: real, ch: real, scale: real)
    requires vw > 0.0 && vh > 0.0 && cw > 0.0 && ch > 0.0
    requires scale == Max(cw / vw, ch / vh)
    ensures scale > 0.0
    ensures cw / scale <= vw && ch / scale <= vh
    ensures cw / scale == vw || ch / scale == vh
    ensures (cw / scale) * ch == (ch / scale) * cw
    ensures (cw / scale) * scale == cw && (ch / scale) * scale == ch
    ensures 0.0 < cw / scale && 0.0 < ch / scale
  {
    DivBound(cw, vw, scale);
    DivBound(ch, vh, scale);
    if scale == cw / vw {
      assert cw / scale == vw;
    } else {
      assert ch / scale == vh;
    }
  }

  /** Dividing the container by a scale at least as large as container/video
      leaves at most the video's size. */
  lemma DivBound(c: real, v: real, s: real)
    requires c > 0.0 && v > 0.0 && s >= c / v
    ensures s > 0.0 && c / s <= v
  {
  }

  /** The transformation in force while the frame is drawn: resizing the
      canvas resets it to the identity, then `scale(-1, 1)` and
      `translate(-canvasWidth, 0)` are applied in that order. */
  function MirrorMatrix(canvasWidth: real): (m: Matrix)
    ensures forall p :: Apply(m, p) == Point(canvasWidth - p.x, p.y)
  {
    MirrorPoints(canvasWidth);
    Multiply(Multiply(Identity, Scale(-1.0, 1.0)), Translate(-canvasWidth, 0.0))
  }

  /** Point by point, the last transform applied to the context acts first:
      the point is moved left by the canvas width, then flipped about x = 0. */
  lemma MirrorPoints(canvasWidth: real)
    ensures forall p :: Apply(Multiply(Multiply(Identity, Scale(-1.0, 1.0)), Translate(-canvasWidth, 0.0)), p)
                          == Point(canvasWidth - p.x, p.y)
  {
    var flip := Multiply(Identity, Scale(-1.0, 1.0));
    var shift := Translate(-canvasWidth, 0.0);
    forall p ensures Apply(Multiply(flip, shift), p) == Point(canvasWidth - p.x, p.y) {
      // Dafny also finds this by unfolding the product; the calls state the order.
      var moved := Apply(shift, p);
      ApplyMultiply(flip, shift, p);
      ApplyMultiply(Identity, Scale(-1.0, 1.0), moved);
      assert moved == Point(p.x - canvasWidth, p.y);
    }
  }

  /** Mirroring twice gives back the original point: the matrix is its own inverse. */
  lemma MirrorInvolution(canvasWidth: real, p: Point)
    ensures Multiply(MirrorMatrix(canvasWidth), MirrorMatrix(canvasWidth)) == Identity
    ensures Apply(MirrorMatrix(canvasWidth), Apply(MirrorMatrix(canvasWidth), p)) == p
  {
    var r := Matrix(-1.0, 0.0, 0.0, 1.0, canvasWidth, 0.0);
    MirrorEntries(canvasWidth);
    assert Multiply(r, r) == Identity;
    var q := Apply(MirrorMatrix(canvasWidth), p);
    assert q == Point(canvasWidth - p.x, p.y);
    assert Apply(MirrorMatrix(canvasWidth), q) == Point(canvasWidth - q.x, q.y);
  }

  /** The entries of the mirror matrix: (-1, 0, 0, 1, width, 0). */
  lemma MirrorEntries(canvasWidth: real)
    ensures MirrorMatrix(canvasWidth) == Matrix(-1.0, 0.0, 0.0, 1.0, canvasWidth, 0.0)
  {
    var s := Multiply(Identity, Scale(-1.0, 1.0));
    assert s == Matrix(-1.0, 0.0, 0.0, 1.0, 0.0, 0.0);
    assert Multiply(s, Translate(-canvasWidth, 0.0)) == Matrix(-1.0, 0.0, 0.0, 1.0, canvasWidth, 0.0);
  }

  /** The mirror maps the canvas's horizontal extent [0, width] onto itself. */
  lemma MirrorOnto(canvasWidth: real, x: real, y: real)
    requires canvasWidth >= 0.0
    ensures 0.0 <= x <= canvasWidth ==> 0.0 <= Apply(MirrorMatrix(canvasWidth), Point(x, y)).x <= canvasWidth
    ensures 0.0 <= x <= canvasWidth ==>
              exists u :: 0.0 <= u <= canvasWidth && Apply(MirrorMatrix(canvasWidth), Point(u, y)) == Point(x, y)
  {
    if 0.0 <= x <= canvasWidth {
      var u := canvasWidth - x;
      assert Apply(MirrorMatrix(canvasWidth), Point(u, y)) == Point(x, y);
    }
  }

  /** `drawImage(image, sx, sy, sw, sh, dx, dy, dw, dh)` without a transform:
      where a point of the source image lands in the destination rectangle. */
  function DrawImageMap(src: Rect, dst: Rect, p: Point): Point
    requires src.width > 0.0 && src.height > 0.0
  {
    Point(dst.x + (p.x - src.x) * dst.width / src.width,
          dst.y + (p.y - src.y) * dst.height / src.height)
  }

  /** One captured still: the canvas is resized to the container and the crop
      of the video is drawn over all of it. */
  datatype Still = Still(crop: Crop, width: real, height: real)
  {
    /** The crop rectangle is exactly the canvas shrunk by the scale factor. */
    ghost predicate Consistent() {
      && width > 0.0 && height > 0.0 && crop.scale > 0.0
      && crop.width > 0.0 && crop.height > 0.0
      && crop.width * crop.scale == width && crop.height * crop.scale == height
    }

    function Canvas(): Rect { Rect(0.0, 0.0, width, height) }
  }

  /** The geometry `capturePhoto` sets up for a video frame of the given size
      shown in a container of the given size. */
  function Sample(videoWidth: real, videoHeight: real,
                  containerWidth: real, containerHeight: real): (s: Still)
    requires videoWidth > 0.0 && videoHeight > 0.0
    requires containerWidth > 0.0 && containerHeight > 0.0
    ensures s.width == containerWidth && s.height == containerHeight
    ensures s.Consistent()
    ensures s.crop.x >= 0.0 && s.crop.y >= 0.0
    ensures s.crop.x + s.crop.width <= videoWidth && s.crop.y + s.crop.height <= videoHeight
  {
    Still(CoverCrop(videoWidth, videoHeight, containerWidth, containerHeight),
          containerWidth, containerHeight)
  }

  /** Where a point of the video frame lands on the still: the crop is
      stretched onto the whole canvas under the mirror transformation. */
  function VideoToCanvas(s: Still, p: Point): Point
    requires s.Consistent()
  {
    Apply(MirrorMatrix(s.width), DrawImageMap(s.crop.Source(), s.Canvas(), p))
  }

  /** Where the same point would land without the mirror transformation. */
  function VideoToCanvasPlain(s: Still, p: Point): Point
    requires s.Consistent()
  {
    DrawImageMap(s.crop.Source(), s.Canvas(), p)
  }

  /** The reverse direction: which point of the video a pixel of the still
      shows. A pixel on the canvas always shows a point of the crop. */
  function CanvasToVideo(s: Still, q: Point): (p: Point)
    requires s.Consistent()
    ensures s.Canvas().Contains(q) ==> s.crop.Source().Contains(p)
  {
    var p := Point(s.crop.x + (s.width - q.x) / s.crop.scale, s.crop.y + q.y / s.crop.scale);
    if s.Canvas().Contains(q) then
      ScaledOffset(s.width - q.x, s.width, s.crop.scale, s.crop.width);
      ScaledOffset(q.y, s.height, s.crop.scale, s.crop.height);
      p
    else
      p
  }

  lemma ScaledOffset(t: real, total: real, scale: real, size: real)
    requires 0.0 <= t <= total && scale > 0.0 && size * scale == total
    ensures 0.0 <= t / scale <= size
  {
    assert total / scale == size;
  }

  /** Cover-fit never samples outside the camera image: every pixel of a
      captured still shows a point of the video frame. */
  lemma StillSamplesInsideVideo(vw: real, vh: real, cw: real, ch: real, q: Point)
    requires vw > 0.0 && vh > 0.0 && cw > 0.0 && ch > 0.0
    requires Rect(0.0, 0.0, cw, ch).Contains(q)
    ensures Rect(0.0, 0.0, vw, vh).Contains(CanvasToVideo(Sample(vw, vh, cw, ch), q))
  {
    var s := Sample(vw, vh, cw, ch);
    assert s.Canvas().Contains(q);
    var p := CanvasToVideo(s, q);
    assert s.crop.Source().Contains(p);
  }

  lemma VideoToCanvasFormula(s: Still, p: Point)
    requires s.Consistent()
    ensures VideoToCanvas(s, p)
              == Point(s.width - (p.x - s.crop.x) * s.width / s.crop.width,
                       (p.y - s.crop.y) * s.height / s.crop.height)
  {
    var d := DrawImageMap(s.crop.Source(), s.Canvas(), p);
    assert d == Point((p.x - s.crop.x) * s.width / s.crop.width,
                      (p.y - s.crop.y) * s.height / s.crop.height);
    assert Apply(MirrorMatrix(s.width), d) == Point(s.width - d.x, d.y);
  }

  /** Stretching an offset from the crop onto the canvas and dividing by the
      scale again gives the offset back, and the other way round. */
  lemma StretchUnstretch(t: real, size: real, scale: real, total: real)
    requires scale > 0.0 && size > 0.0 && size * scale == total
    ensures (t * total / size) / scale == t
    ensures (t / scale) * total / size == t
  {
    assert total / size == scale;
  }

  /** Mapping a pixel of the still back to the video and forward again gives
      the same pixel. */
  lemma CanvasVideoRoundTrip(s: Still, q: Point)
    requires s.Consistent()
    ensures VideoToCanvas(s, CanvasToVideo(s, q)) == q
  {
    var p := CanvasToVideo(s, q);
    VideoToCanvasFormula(s, p);
    StretchUnstretch(s.width - q.x, s.crop.width, s.crop.scale, s.width);
    StretchUnstretch(q.y, s.crop.height, s.crop.scale, s.height);
  }

  /** Mapping a video point onto the still and back gives the same video point. */
  lemma VideoCanvasRoundTrip(s: Still, p: Point)
    requires s.Consistent()
    ensures CanvasToVideo(s, VideoToCanvas(s, p)) == p
  {
    var q := VideoToCanvas(s, p);
    VideoToCanvasFormula(s, p);
    Unstretch(s.crop.x, p.x, s.width - q.x, s.crop.width, s.crop.scale, s.width);
    Unstretch(s.crop.y, p.y, q.y, s.crop.height, s.crop.scale, s.height);
  }

  lemma Unstretch(origin: real, v: real, offset: real, size: real, scale: real, total: real)
    requires scale > 0.0 && size > 0.0 && size * scale == total
    requires offset == (v - origin) * total / size
    ensures origin + offset / scale == v
  {
    StretchUnstretch(v - origin, size, scale, total);
  }

  /** The captured still is the horizontal flip of the un-mirrored crop: the
      pixel at x shows what the un-mirrored drawing shows at width - x. */
  lemma StillIsMirroredCrop(s: Still, p: Point)
    requires s.Consistent()
    ensures VideoToCanvas(s, p)
              == Point(s.width - VideoToCanvasPlain(s, p).x, VideoToCanvasPlain(s, p).y)
  {
  }

  /** The crop's top-left corner lands at the still's top-right corner and its
      bottom-right corner at the still's bottom-left corner. */
  lemma CropCornersMirrored(s: Still)
    requires s.Consistent()
    ensures VideoToCanvas(s, Point(s.crop.x, s.crop.y)) == Point(s.width, 0.0)
    ensures VideoToCanvas(s, Point(s.crop.x + s.crop.width, s.crop.y + s.crop.height))
              == Point(0.0, s.height)
  {
    TopLeftCorner(s);
    BottomRightCorner(s);
  }

  lemma TopLeftCorner(s: Still)
    requires s.Consistent()
    ensures VideoToCanvas(s, Point(s.crop.x, s.crop.y)) == Point(s.width, 0.0)
  {
    VideoToCanvasFormula(s, Point(s.crop.x, s.crop.y));
    CornerMath(s.crop.x, s.crop.y, s.crop.width, s.crop.height, s.width, s.height);
  }

  lemma BottomRightCorner(s: Still)
    requires s.Consistent()
    ensures VideoToCanvas(s, Point(s.crop.x + s.crop.width, s.crop.y + s.crop.height))
              == Point(0.0, s.height)
  {
    VideoToCanvasFormula(s, Point(s.crop.x + s.crop.width, s.crop.y + s.crop.height));
    CornerMath(s.crop.x, s.crop.y, s.crop.width, s.crop.height, s.width, s.height);
  }

  /** The crop's near edges are stretched to 0, its far edges to the full size. */
  lemma CornerMath(x: real, y: real, cropWidth: real, cropHeight: real, width: real, height: real)
    requires cropWidth > 0.0 && cropHeight > 0.0
    ensures Point(width - (x - x) * width / cropWidth, (y - y) * height / cropHeight)
              == Point(width, 0.0)
    ensures Point(width - (x + cropWidth - x) * width / cropWidth, (y + cropHeight - y) * height / cropHeight)
              == Point(0.0, height)
  {
    assert x + cropWidth - x == cropWidth;
    assert y + cropHeight - y == cropHeight;
  }
}
