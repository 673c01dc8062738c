/**
 * Image buffers of `src/util/image.js`: a width, a height and a byte buffer of
 * `width * height * channels` bytes laid out row by row, with allocation, a
 * bounds-checked rectangle copy and a resize that keeps the top-left corner.
 */
module ImageUtil {
  import opened Common

  datatype Size = Size(width: nat, height: nat)
  datatype Point = Point(x: nat, y: nat)

  /** The two `RangeError`s `copyImage` throws. */
  datatype CopyError = SourceOutOfRange | DestinationOutOfRange

  const RGBA_CHANNELS: nat := 4
  const ALPHA_CHANNELS: nat := 1

  class Image {
    const width: nat
    const height: nat
    const data: array<Byte>

    /** The buffer holds exactly one pixel of `channels` bytes per position. */
    ghost predicate Valid(channels: nat) {
      data.Length == width * height * channels
    }

    /** `createImage`: the requested size and a zero-filled buffer. */
    constructor Create(size: Size, channels: nat)
      ensures width == size.width && height == size.height
      ensures fresh(data) && Valid(channels)
      ensures forall k :: 0 <= k < data.Length ==> data[k] == 0
    {
      width := size.width;
      height := size.height;
      data := new Byte[size.width * size.height * channels](_ => 0);
    }
  }

  /** `rect` placed at `pt` lies inside an image of the given width and height. */
  predicate RectFits(imageWidth: nat, imageHeight: nat, pt: Point, rect: Size) {
    && rect.width <= imageWidth
    && rect.height <= imageHeight
    && pt.x <= imageWidth - rect.width
    && pt.y <= imageHeight - rect.height
  }

  /** The geometry of one copy: the two row widths, the two corners, the size and the pixel width. */
  datatype Region = Region(srcWidth: nat, dstWidth: nat, srcPt: Point, dstPt: Point, size: Size, channels: nat)

  function RowBytes(g: Region): nat { g.size.width * g.channels }

  /** Offset of the first byte of row `y` of the rectangle in the source buffer. */
  function SrcRow(g: Region, y: nat): nat { ((g.srcPt.y + y) * g.srcWidth + g.srcPt.x) * g.channels }

  /** Offset of the first byte of row `y` of the rectangle in the destination buffer. */
  function DstRow(g: Region, y: nat): nat { ((g.dstPt.y + y) * g.dstWidth + g.dstPt.x) * g.channels }

  function SrcAt(g: Region, y: nat, i: nat): nat { SrcRow(g, y) + i }
  function DstAt(g: Region, y: nat, i: nat): nat { DstRow(g, y) + i }

  /** Destination offset `k` lies in row `y` of the target rectangle. */
  predicate InRow(g: Region, y: nat, k: int) {
    DstRow(g, y) <= k < DstRow(g, y) + RowBytes(g)
  }

  /** Destination offset `k` lies in no row of the target rectangle. */
  predicate OutsideTarget(g: Region, k: int) {
    forall y :: 0 <= y < g.size.height ==> !InRow(g, y, k)
  }

  /**
   * `after` is `before` with the rectangle of `src` described by `g` copied in:
   * every byte of every row of the rectangle comes from the matching source byte,
   * and every destination byte outside the rectangle keeps its old value.
   */
  ghost predicate Copied(g: Region, before: seq<Byte>, after: seq<Byte>, src: seq<Byte>) {
    && |after| == |before|
    && (forall y, i :: 0 <= y < g.size.height && 0 <= i < RowBytes(g) ==>
          && DstAt(g, y, i) < |after| && SrcAt(g, y, i) < |src|
          && after[DstAt(g, y, i)] == src[SrcAt(g, y, i)])
    && (forall k :: 0 <= k < |after| && OutsideTarget(g, k) ==> after[k] == before[k])
  }

  /** The copy's result is determined: two buffers that both satisfy `Copied` are equal. */
  lemma CopiedIsUnique(g: Region, before: seq<Byte>, a1: seq<Byte>, a2: seq<Byte>, src: seq<Byte>)
    requires Copied(g, before, a1, src) && Copied(g, before, a2, src)
    ensures a1 == a2
  {
    forall k | 0 <= k < |a1|
      ensures a1[k] == a2[k]
    {
      if !OutsideTarget(g, k) {
        var y :| 0 <= y < g.size.height && InRow(g, y, k);
        var i := k - DstRow(g, y);
        assert DstAt(g, y, i) == k;
      }
    }
  }

  lemma MulLeft(a: nat, b: nat, c: nat)
    requires a <= b
    ensures a * c <= b * c
  {
  }

  /** Row `y` of a rectangle that fits lies inside the buffer. */
  lemma RowInBounds(width: nat, height: nat, pt: Point, rect: Size, channels: nat, y: nat, i: nat)
    requires RectFits(width, height, pt, rect)
    requires y < rect.height && i < rect.width * channels
    ensures ((pt.y + y) * width + pt.x) * channels + i < width * height * channels
  {
    var row := pt.y + y;
    var start := row * width + pt.x;
    assert start * channels + rect.width * channels == (start + rect.width) * channels;
    assert start + rect.width <= (row + 1) * width;
    MulLeft(start + rect.width, (row + 1) * width, channels);
    MulLeft(row + 1, height, width);
    MulLeft((row + 1) * width, height * width, channels);
    assert height * width * channels == width * height * channels;
  }

  /** Earlier destination rows of the rectangle end before later ones begin. */
  lemma RowsOrdered(g: Region, y1: nat, y2: nat)
    requires g.dstPt.x + g.size.width <= g.dstWidth
    requires y1 < y2
    ensures DstRow(g, y1) + RowBytes(g) <= DstRow(g, y2)
  {
    var w := g.dstWidth;
    var r1 := g.dstPt.y + y1;
    var r2 := g.dstPt.y + y2;
    var end1 := r1 * w + g.dstPt.x + g.size.width;
    assert (r1 * w + g.dstPt.x) * g.channels + g.size.width * g.channels == end1 * g.channels;
    MulLeft(r1 + 1, r2, w);
    assert end1 <= r2 * w + g.dstPt.x;
    MulLeft(end1, r2 * w + g.dstPt.x, g.channels);
  }

  /** Every byte offset of the rectangle lies inside both buffers. */
  ghost predicate InBounds(g: Region, srcLength: nat, dstLength: nat) {
    forall y, i :: 0 <= y < g.size.height && 0 <= i < RowBytes(g) ==>
      DstAt(g, y, i) < dstLength && SrcAt(g, y, i) < srcLength
  }

  /** The destination rows of the rectangle are in increasing order and do not overlap. */
  ghost predicate RowsDisjoint(g: Region) {
    forall y1, y2 :: 0 <= y1 < y2 < g.size.height ==> DstRow(g, y1) + RowBytes(g) <= DstRow(g, y2)
  }

  lemma RegionInBounds(g: Region, srcHeight: nat, dstHeight: nat)
    requires RectFits(g.srcWidth, srcHeight, g.srcPt, g.size)
    requires RectFits(g.dstWidth, dstHeight, g.dstPt, g.size)
    ensures InBounds(g, g.srcWidth * srcHeight * g.channels, g.dstWidth * dstHeight * g.channels)
  {
    forall y, i | 0 <= y < g.size.height && 0 <= i < RowBytes(g)
      ensures DstAt(g, y, i) < g.dstWidth * dstHeight * g.channels
      ensures SrcAt(g, y, i) < g.srcWidth * srcHeight * g.channels
    {
      RowInBounds(g.srcWidth, srcHeight, g.srcPt, g.size, g.channels, y, i);
      RowInBounds(g.dstWidth, dstHeight, g.dstPt, g.size, g.channels, y, i);
    }
  }

  lemma RegionRowsOrdered(g: Region)
    requires g.dstPt.x + g.size.width <= g.dstWidth
    ensures RowsDisjoint(g)
  {
    forall y1, y2 | 0 <= y1 < y2 < g.size.height
      ensures DstRow(g, y1) + RowBytes(g) <= DstRow(g, y2)
    {
      RowsOrdered(g, y1, y2);
    }
  }

  /**
   * `copyImage`: with an empty rectangle `dst` is returned untouched; a rectangle that
   * leaves the source, or else the destination, is refused with the matching error and
   * `dst` untouched; otherwise the rectangle is copied and `dst` returned.
   * The source's `assert(srcData !== dstData)` is reached only on the copying path.
   */
  method CopyImage(src: Image, dst: Image, srcPt: Point, dstPt: Point, size: Size, channels: nat)
    returns (r: Result<Image, CopyError>)
    requires src.Valid(channels) && dst.Valid(channels)
    requires size.width != 0 && size.height != 0
             && RectFits(src.width, src.height, srcPt, size)
             && RectFits(dst.width, dst.height, dstPt, size)
             ==> src.data != dst.data
    modifies dst.data
    ensures size.width == 0 || size.height == 0 ==> r == Ok(dst) && dst.data[..] == old(dst.data[..])
    ensures size.width != 0 && size.height != 0 && !RectFits(src.width, src.height, srcPt, size) ==>
              r == Err(SourceOutOfRange) && dst.data[..] == old(dst.data[..])
    ensures size.width != 0 && size.height != 0 && RectFits(src.width, src.height, srcPt, size)
            && !RectFits(dst.width, dst.height, dstPt, size) ==>
              r == Err(DestinationOutOfRange) && dst.data[..] == old(dst.data[..])
    ensures size.width != 0 && size.height != 0 && RectFits(src.width, src.height, srcPt, size)
            && RectFits(dst.width, dst.height, dstPt, size) ==>
              r == Ok(dst) && Copied(Region(src.width, dst.width, srcPt, dstPt, size, channels),
                                     old(dst.data[..]), dst.data[..], src.data[..])
  {
    if size.width == 0 || size.height == 0 {
      return Ok(dst);
    }
    if !RectFits(src.width, src.height, srcPt, size) {
      return Err(SourceOutOfRange);
    }
    if !RectFits(dst.width, dst.height, dstPt, size) {
      return Err(DestinationOutOfRange);
    }
    var g := Region(src.width, dst.width, srcPt, dstPt, size, channels);
    RegionInBounds(g, src.height, dst.height);
    RegionRowsOrdered(g);
    CopyRows(src.data, dst.data, g);
    return Ok(dst);
  }

  /** The outer loop of the copy: row after row of the rectangle. */
  method CopyRows(src: array<Byte>, dst: array<Byte>, g: Region)
    requires src != dst && InBounds(g, src.Length, dst.Length) && RowsDisjoint(g)
    modifies dst
    ensures Copied(g, old(dst[..]), dst[..], src[..])
  {
    var y := 0;
    while y < g.size.height
      invariant 0 <= y <= g.size.height
      invariant forall yy, i :: 0 <= yy < y && 0 <= i < RowBytes(g) ==> dst[DstAt(g, yy, i)] == src[SrcAt(g, yy, i)]
      invariant forall k :: 0 <= k < dst.Length && (forall yy :: 0 <= yy < y ==> !InRow(g, yy, k)) ==>
                  dst[k] == old(dst[k])
    {
      ghost var before := dst[..];
      CopyRow(src, dst, g, y);
      forall yy, i | 0 <= yy < y && 0 <= i < RowBytes(g)
        ensures dst[DstAt(g, yy, i)] == src[SrcAt(g, yy, i)]
      {
        assert !InRow(g, y, DstAt(g, yy, i));
        assert dst[DstAt(g, yy, i)] == before[DstAt(g, yy, i)];
      }
      y := y + 1;
    }
  }

  /** The inner loop of the copy: the bytes of row `y`; nothing else changes. */
  method CopyRow(src: array<Byte>, dst: array<Byte>, g: Region, y: nat)
    requires src != dst && y < g.size.height && InBounds(g, src.Length, dst.Length)
    modifies dst
    ensures forall i :: 0 <= i < RowBytes(g) ==> dst[DstAt(g, y, i)] == src[SrcAt(g, y, i)]
    ensures forall k :: 0 <= k < dst.Length && !InRow(g, y, k) ==> dst[k] == old(dst[k])
  {
    var srcOffset := ((g.srcPt.y + y) * g.srcWidth + g.srcPt.x) * g.channels;
    var dstOffset := ((g.dstPt.y + y) * g.dstWidth + g.dstPt.x) * g.channels;
    var i := 0;
    while i < g.size.width * g.channels
      invariant 0 <= i <= RowBytes(g)
      invariant forall ii :: 0 <= ii < i ==> dst[DstAt(g, y, ii)] == src[SrcAt(g, y, ii)]
      invariant forall k :: 0 <= k < dst.Length && !(dstOffset <= k < dstOffset + i) ==> dst[k] == old(dst[k])
    {
      assert DstAt(g, y, i) == dstOffset + i && SrcAt(g, y, i) == srcOffset + i;
      dst[dstOffset + i] := src[srcOffset + i];
      i := i + 1;
    }
  }

  /**
   * `resizeImage`: the same object when the size is unchanged; otherwise a fresh image of
   * the new size whose top-left `min(width) x min(height)` rectangle is the old image's and
   * whose other bytes are zero.
   */
  method ResizeImage(image: Image, size: Size, channels: nat) returns (r: Image)
    requires image.Valid(channels)
    ensures size.width == image.width && size.height == image.height ==> r == image
    ensures size.width != image.width || size.height != image.height ==>
              && fresh(r) && fresh(r.data) && r.Valid(channels)
              && r.width == size.width && r.height == size.height
              && Copied(Region(image.width, size.width, Point(0, 0), Point(0, 0),
                               Size(Min(image.width, size.width), Min(image.height, size.height)), channels),
                        seq(r.data.Length, _ => 0), r.data[..], image.data[..])
  {
    if size.width == image.width && size.height == image.height {
      return image;
    }
    r := new Image.Create(size, channels);
    ghost var zeros := r.data[..];
    assert zeros == seq(r.data.Length, _ => 0);
    var copySize := Size(Min(image.width, size.width), Min(image.height, size.height));
    var _ := CopyImage(image, r, Point(0, 0), Point(0, 0), copySize, channels);
  }

  function Min(a: nat, b: nat): nat { if a <= b then a else b }

  /** `RGBAImage.create`. */
  method CreateRgba(size: Size) returns (img: Image)
    ensures fresh(img) && fresh(img.data) && img.Valid(RGBA_CHANNELS)
    ensures img.width == size.width && img.height == size.height
    ensures forall k :: 0 <= k < img.data.Length ==> img.data[k] == 0
  {
    img := new Image.Create(size, RGBA_CHANNELS);
  }

  /** `AlphaImage.create`. */
  method CreateAlpha(size: Size) returns (img: Image)
    ensures fresh(img) && fresh(img.data) && img.Valid(ALPHA_CHANNELS)
    ensures img.width == size.width && img.height == size.height
    ensures forall k :: 0 <= k < img.data.Length ==> img.data[k] == 0
  {
    img := new Image.Create(size, ALPHA_CHANNELS);
  }

  /** `RGBAImage.resize`. */
  method ResizeRgba(image: Image, size: Size) returns (r: Image)
    requires image.Valid(RGBA_CHANNELS)
    ensures size.width == image.width && size.height == image.height ==> r == image
    ensures size.width != image.width || size.height != image.height ==>
              && fresh(r) && fresh(r.data) && r.Valid(RGBA_CHANNELS)
              && r.width == size.width && r.height == size.height
              && Copied(Region(image.width, size.width, Point(0, 0), Point(0, 0),
                               Size(Min(image.width, size.width), Min(image.height, size.height)), RGBA_CHANNELS),
                        seq(r.data.Length, _ => 0), r.data[..], image.data[..])
  {
    r := ResizeImage(image, size, RGBA_CHANNELS);
  }

  /** `AlphaImage.resize`. */
  method ResizeAlpha(image: Image, size: Size) returns (r: Image)
    requires image.Valid(ALPHA_CHANNELS)
    ensures size.width == image.width && size.height == image.height ==> r == image
    ensures size.width != image.width || size.height != image.height ==>
              && fresh(r) && fresh(r.data) && r.Valid(ALPHA_CHANNELS)
              && r.width == size.width && r.height == size.height
              && Copied(Region(image.width, size.width, Point(0, 0), Point(0, 0),
                               Size(Min(image.width, size.width), Min(image.height, size.height)), ALPHA_CHANNELS),
                        seq(r.data.Length, _ => 0), r.data[..], image.data[..])
  {
    r := ResizeImage(image, size, ALPHA_CHANNELS);
  }

  /** `RGBAImage.copy`. */
  method CopyRgba(src: Image, dst: Image, srcPt: Point, dstPt: Point, size: Size)
    returns (r: Result<Image, CopyError>)
    requires src.Valid(RGBA_CHANNELS) && dst.Valid(RGBA_CHANNELS)
    requires size.width != 0 && size.height != 0
             && RectFits(src.width, src.height, srcPt, size)
             && RectFits(dst.width, dst.height, dstPt, size)
             ==> src.data != dst.data
    modifies dst.data
    ensures r.Err? ==> dst.data[..] == old(dst.data[..])
    ensures r.Ok? <==> size.width == 0 || size.height == 0
                       || (RectFits(src.width, src.height, srcPt, size) && RectFits(dst.width, dst.height, dstPt, size))
    ensures r.Ok? ==> r.value == dst && Copied(Region(src.width, dst.width, srcPt, dstPt, size, RGBA_CHANNELS),
                                                old(dst.data[..]), dst.data[..], src.data[..])
  {
    r := CopyImage(src, dst, srcPt, dstPt, size, RGBA_CHANNELS);
  }

  /** `AlphaImage.copy`. */
  method CopyAlpha(src: Image, dst: Image, srcPt: Point, dstPt: Point, size: Size)
    returns (r: Result<Image, CopyError>)
    requires src.Valid(ALPHA_CHANNELS) && dst.Valid(ALPHA_CHANNELS)
    requires size.width != 0 && size.height != 0
             && RectFits(src.width, src.height, srcPt, size)
             && RectFits(dst.width, dst.height, dstPt, size)
             ==> src.data != dst.data
    modifies dst.data
    ensures r.Err? ==> dst.data[..] == old(dst.data[..])
    ensures r.Ok? <==> size.width == 0 || size.height == 0
                       || (RectFits(src.width, src.height, srcPt, size) && RectFits(dst.width, dst.height, dstPt, size))
    ensures r.Ok? ==> r.value == dst && Copied(Region(src.width, dst.width, srcPt, dstPt, size, ALPHA_CHANNELS),
                                                old(dst.data[..]), dst.data[..], src.data[..])
  {
    r := CopyImage(src, dst, srcPt, dstPt, size, ALPHA_CHANNELS);
  }
}
