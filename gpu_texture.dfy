/**
 * CPU-side images and the naive collage generator: an image is a row-major
 * vector of RGBA pixels; a collage puts images side by side in one image
 * whose sides are powers of two.
 *
 * RawImageRGBA is copied by value everywhere in the source (returned,
 * stored in maps and vectors), so it is a datatype here and set_pixel
 * returns the updated image; the copy loops are methods.
 */
module GpuTexture {
  import opened Wrappers
  import opened BasicMath
  import opened Strings

  /** PixelRGBA: four unsigned chars; the default pixel is all zero. */
  datatype Pixel = Pixel(r: Byte, g: Byte, b: Byte, a: Byte)

  const Blank := Pixel(0, 0, 0, 0)

  /** A width * height image of transparent black pixels. */
  function BlankImage(width: nat, height: nat): (r: RawImage)
    ensures r.width == width && r.height == height && r.Valid()
    ensures forall k :: 0 <= k < |r.pixels| ==> r.pixels[k] == Blank
  {
    RawImage(width, height, seq(width * height, _ => Blank))
  }

  /** RawImageRGBA: its pixel vector is expected to hold width * height pixels. */
  datatype RawImage = RawImage(width: nat, height: nat, pixels: seq<Pixel>)
  {
    predicate Valid() {
      |pixels| == width * height
    }
  }

  /** Where pixel (x, y) is stored. */
  function PixelIndex(width: nat, x: int, y: int): int
  {
    x + y * width
  }

  /**
   * The RawImageRGBA constructor: asserts that the pixel count matches and
   * that both sides are powers of two (for OpenGL).
   */
  function NewRawImage(pixels: seq<Pixel>, width: nat, height: nat): (r: Result<RawImage>)
    ensures r.Success? <==> |pixels| == width * height && IsPow2(width) && IsPow2(height)
    ensures r.Success? ==> (r.value.Valid() && r.value.pixels == pixels
      && r.value.width == width && r.value.height == height)
  {
    IsPowerOfTwoCorrect(width);
    IsPowerOfTwoCorrect(height);
    if width * height != |pixels| then Failure("pixel count is not width * height")
    else if !IsPowerOfTwo(width) then Failure("width is not a power of two")
    else if !IsPowerOfTwo(height) then Failure("height is not a power of two")
    else Success(RawImage(width, height, pixels))
  }

  /** get_pixel: no bounds check beyond the vector's own. */
  function GetPixel(image: RawImage, x: int, y: int): Pixel
    requires 0 <= PixelIndex(image.width, x, y) < |image.pixels|
  {
    image.pixels[PixelIndex(image.width, x, y)]
  }

  /** set_pixel: writes one entry of the pixel vector. */
  function SetPixel(image: RawImage, p: Pixel, x: int, y: int): (r: RawImage)
    requires 0 <= PixelIndex(image.width, x, y) < |image.pixels|
    ensures r.width == image.width && r.height == image.height && |r.pixels| == |image.pixels|
    ensures GetPixel(r, x, y) == p
    ensures forall k :: 0 <= k < |r.pixels| && k != PixelIndex(image.width, x, y) ==> r.pixels[k] == image.pixels[k]
  {
    image.(pixels := image.pixels[PixelIndex(image.width, x, y) := p])
  }

  /** Pixel (x, y) of a well-formed image, for (x, y) inside it. */
  function ImagePixel(image: RawImage, x: nat, y: nat): Pixel
    requires image.Valid() && x < image.width && y < image.height
  {
    IndexInImage(image.width, image.height, x, y);
    GetPixel(image, x, y)
  }

  /** Row-major indices inside a width * height image decode back to their column and row. */
  lemma IndexDecode(width: nat, x: nat, y: nat)
    requires x < width
    ensures PixelIndex(width, x, y) % width == x && PixelIndex(width, x, y) / width == y
  {
    var k := x + y * width;
    var q, m := k / width, k % width;
    assert k == q * width + m;
    MulAtLeast(y - q, width);
    assert (y - q) * width == y * width - q * width;
    MulAtLeast(q - y, width);
    assert (q - y) * width == q * width - y * width;
  }

  lemma MulAtLeast(a: int, w: nat)
    ensures a >= 1 ==> a * w >= w
  {
    assert a * w == (a - 1) * w + w;
  }

  /** An index in range of a width * height image belongs to a pixel inside it. */
  lemma IndexInImage(width: nat, height: nat, x: nat, y: nat)
    requires x < width && y < height
    ensures PixelIndex(width, x, y) < width * height
  {
    assert x + y * width < width + y * width == (y + 1) * width;
    assert (y + 1) * width <= height * width;
  }

  /** Every index k of an image with positive width is column k % width of row k / width. */
  lemma IndexSplit(width: nat, k: nat)
    requires width > 0
    ensures k == PixelIndex(width, k % width, k / width) && k % width < width
  {
  }

  /** Column-major progress of the copy loops: columns before x are done, and rows before y of column x. */
  predicate ColumnMajorDone(x: int, y: int, col: int, row: int)
  {
    col < x || (col == x && row < y)
  }

  // ---- CollageGeneratorRGBA ----

  /** The summed width of the images. */
  function TotalWidth(images: seq<RawImage>): nat
  {
    if |images| == 0 then 0 else TotalWidth(images[..|images| - 1]) + images[|images| - 1].width
  }

  /** The largest height of the images, 0 for none. */
  function MaxHeight(images: seq<RawImage>): (m: nat)
    ensures forall i :: 0 <= i < |images| ==> images[i].height <= m
  {
    if |images| == 0 then 0
    else
      var m := MaxHeight(images[..|images| - 1]);
      var h := images[|images| - 1].height;
      if m >= h then m else h
  }

  /** The x offset of image i in the collage: the summed width of the images before it. */
  function Offset(images: seq<RawImage>, i: nat): nat
    requires i <= |images|
  {
    TotalWidth(images[..i])
  }

  /** Image i ends where image i + 1 starts. */
  lemma OffsetStep(images: seq<RawImage>, i: nat)
    requires i < |images|
    ensures Offset(images, i + 1) == Offset(images, i) + images[i].width
  {
    assert images[..i + 1][..i] == images[..i];
  }

  lemma {:induction false} OffsetMonotone(images: seq<RawImage>, i: nat, j: nat)
    requires i <= j <= |images|
    ensures Offset(images, i) <= Offset(images, j)
    decreases j - i
  {
    if i < j {
      OffsetStep(images, i);
      OffsetMonotone(images, i + 1, j);
    }
  }

  /** The image whose columns hold column col, searching from image j; |images| past the last one. */
  function OwnerFrom(images: seq<RawImage>, col: int, j: nat): (r: nat)
    requires j <= |images| && col >= Offset(images, j)
    ensures j <= r <= |images|
    ensures r < |images| ==> Offset(images, r) <= col < Offset(images, r + 1)
    ensures r == |images| ==> col >= Offset(images, |images|)
    decreases |images| - j
  {
    if j == |images| then j
    else if col < Offset(images, j + 1) then OffsetStep(images, j); j
    else OwnerFrom(images, col, j + 1)
  }

  /** Column col of the collage belongs to image i exactly when it lies within image i's columns. */
  lemma {:induction false} OwnerIs(images: seq<RawImage>, col: int, j: nat, i: nat)
    requires j <= i < |images| && Offset(images, j) <= Offset(images, i) <= col < Offset(images, i + 1)
    ensures OwnerFrom(images, col, j) == i
    decreases i - j
  {
    if j < i {
      OffsetMonotone(images, j + 1, i);
      OwnerIs(images, col, j + 1, i);
    }
  }

  /** The pixel the collage holds at (col, row): the owning image's pixel, or blank. */
  function CollagePixel(images: seq<RawImage>, col: nat, row: nat): Pixel
  {
    var j := OwnerFrom(images, col, 0);
    if j < |images| && row < images[j].height && images[j].Valid() then
      OffsetStep(images, j);
      ImagePixel(images[j], col - Offset(images, j), row)
    else Blank
  }

  /** The pixel the collage holds at index k of its row-major buffer. */
  function CollagePixelAt(images: seq<RawImage>, width: nat, k: nat): Pixel
    requires width > 0
  {
    CollagePixel(images, k % width, k / width)
  }

  /** Image i is copied at x offset Offset(images, i) and y offset 0. */
  lemma CollagePlacesImage(images: seq<RawImage>, i: nat, x: nat, y: nat)
    requires i < |images| && images[i].Valid() && x < images[i].width && y < images[i].height
    ensures CollagePixel(images, Offset(images, i) + x, y) == ImagePixel(images[i], x, y)
  {
    var col := Offset(images, i) + x;
    OffsetStep(images, i);
    OffsetMonotone(images, 0, i);
    OwnerIs(images, col, 0, i);
    assert OwnerFrom(images, col, 0) == i;
    assert col - Offset(images, i) == x;
  }

  /** A texture rectangle in [0, 1] coordinates (the double Rect of the source). */
  datatype TexRect = TexRect(x: real, y: real, w: real, h: real)

  /** CollageRGBA: the combined image and one texture rectangle per image. */
  datatype Collage = Collage(image: RawImage, imageRects: seq<TexRect>)

  /** The pixel at index k after the copy loops reached (image i, column x, row y). */
  ghost function CollageProgress(images: seq<RawImage>, width: nat, i: nat, x: int, y: int, k: nat): Pixel
    requires width > 0 && i <= |images|
  {
    var col, row := k % width, k / width;
    var j := OwnerFrom(images, col, 0);
    if j < i || (j == i && ColumnMajorDone(x, y, col - Offset(images, i), row)) then CollagePixel(images, col, row)
    else Blank
  }

  /** The copy step at (x, y) changes no other index. */
  lemma CollageStepOther(images: seq<RawImage>, width: nat, i: nat, x: nat, y: nat, k: nat)
    requires width > 0 && i < |images| && k != PixelIndex(width, Offset(images, i) + x, y)
    ensures CollageProgress(images, width, i, x, y, k) == CollageProgress(images, width, i, x, y + 1, k)
  {
    IndexSplit(width, k);
  }

  /** The copy step at (x, y) makes its own index hold the collage's pixel, image i's pixel (x, y). */
  lemma CollageStepHere(images: seq<RawImage>, width: nat, i: nat, x: nat, y: nat)
    requires width > 0 && i < |images| && images[i].Valid() && x < images[i].width && y < images[i].height
    requires Offset(images, i) + x < width
    ensures CollageProgress(images, width, i, x, y + 1, PixelIndex(width, Offset(images, i) + x, y))
      == ImagePixel(images[i], x, y)
  {
    var col0 := Offset(images, i) + x;
    IndexDecode(width, col0, y);
    CollagePlacesImage(images, i, x, y);
    OffsetStep(images, i);
    OffsetMonotone(images, 0, i);
    OwnerIs(images, col0, 0, i);
  }

  /** Writing pixel (x, y) of image i at (Offset(i) + x, y) advances the copy by one row. */
  lemma CollageWriteStep(images: seq<RawImage>, width: nat, height: nat, i: nat, x: nat, y: nat,
                         before: seq<Pixel>)
    requires width > 0 && i < |images| && images[i].Valid() && x < images[i].width && y < images[i].height
    requires Offset(images, i) + x < width && y < height && |before| == width * height
    requires forall k :: 0 <= k < |before| ==> before[k] == CollageProgress(images, width, i, x, y, k)
    ensures PixelIndex(width, Offset(images, i) + x, y) < |before|
    ensures var idx := PixelIndex(width, Offset(images, i) + x, y);
      var after := before[idx := ImagePixel(images[i], x, y)];
      forall k :: 0 <= k < |after| ==> after[k] == CollageProgress(images, width, i, x, y + 1, k)
  {
    var col0 := Offset(images, i) + x;
    IndexInImage(width, height, col0, y);
    var idx := PixelIndex(width, col0, y);
    var after := before[idx := ImagePixel(images[i], x, y)];
    forall k | 0 <= k < |after|
      ensures after[k] == CollageProgress(images, width, i, x, y + 1, k)
    {
      if k == idx {
        CollageStepHere(images, width, i, x, y);
      } else {
        CollageStepOther(images, width, i, x, y, k);
      }
    }
  }

  /** Ending column x of image i (all its rows written) is starting column x + 1. */
  lemma CollageColumnEnd(images: seq<RawImage>, width: nat, i: nat, x: nat, k: nat)
    requires width > 0 && i < |images|
    ensures CollageProgress(images, width, i, x, images[i].height, k) == CollageProgress(images, width, i, x + 1, 0, k)
  {
  }

  /** Ending image i (all its columns written) is starting image i + 1. */
  lemma CollageImageEnd(images: seq<RawImage>, width: nat, i: nat, k: nat)
    requires width > 0 && i < |images|
    ensures CollageProgress(images, width, i, images[i].width, 0, k) == CollageProgress(images, width, i + 1, 0, 0, k)
  {
    OffsetStep(images, i);
    var col, row := k % width, k / width;
    var j := OwnerFrom(images, col, 0);
    if j == i {
      assert ColumnMajorDone(images[i].width, 0, col - Offset(images, i), row);
    } else if j == i + 1 {
      assert !ColumnMajorDone(0, 0, col - Offset(images, i + 1), row);
    }
  }

  /** After the last image every pixel is the collage's. */
  lemma CollageAllDone(images: seq<RawImage>, width: nat, k: nat)
    requires width > 0
    ensures CollageProgress(images, width, |images|, 0, 0, k) == CollagePixelAt(images, width, k)
  {
  }

  /** The copy loops of generate_collage for image i: every pixel (x, y) goes to (Offset(i) + x, y). */
  method CopyIntoCollage(images: seq<RawImage>, i: nat, canvas: RawImage) returns (image: RawImage)
    requires i < |images| && images[i].Valid() && canvas.Valid() && canvas.width > 0
    requires Offset(images, i + 1) <= canvas.width && images[i].height <= canvas.height
    requires forall k :: 0 <= k < |canvas.pixels| ==> canvas.pixels[k] == CollageProgress(images, canvas.width, i, 0, 0, k)
    ensures image.width == canvas.width && image.height == canvas.height && image.Valid()
    ensures forall k :: 0 <= k < |image.pixels| ==> image.pixels[k] == CollageProgress(images, canvas.width, i + 1, 0, 0, k)
  {
    image := canvas;
    var width, height := canvas.width, canvas.height;
    var xIndex := Offset(images, i);
    OffsetStep(images, i);
    var x := 0;
    while x < images[i].width
      invariant 0 <= x <= images[i].width
      invariant image.width == width && image.height == height && |image.pixels| == width * height
      invariant forall k :: 0 <= k < |image.pixels| ==> image.pixels[k] == CollageProgress(images, width, i, x, 0, k)
    {
      var y := 0;
      while y < images[i].height
        invariant 0 <= y <= images[i].height
        invariant image.width == width && image.height == height && |image.pixels| == width * height
        invariant forall k :: 0 <= k < |image.pixels| ==> image.pixels[k] == CollageProgress(images, width, i, x, y, k)
      {
        IndexInImage(images[i].width, images[i].height, x, y);
        var pixel := GetPixel(images[i], x, y);
        assert pixel == ImagePixel(images[i], x, y);
        CollageWriteStep(images, width, height, i, x, y, image.pixels);
        image := SetPixel(image, pixel, x + xIndex, y);
        y := y + 1;
      }
      forall k | 0 <= k < |image.pixels|
        ensures image.pixels[k] == CollageProgress(images, width, i, x + 1, 0, k)
      {
        CollageColumnEnd(images, width, i, x, k);
      }
      x := x + 1;
    }
    forall k | 0 <= k < |image.pixels|
      ensures image.pixels[k] == CollageProgress(images, width, i + 1, 0, 0, k)
    {
      CollageImageEnd(images, width, i, k);
    }
  }

  /** The texture rectangle of an image at x offset xIndex: its pixel rectangle scaled by the collage's size. */
  function TextureRect(xIndex: nat, image: RawImage, width: nat, height: nat): TexRect
    requires width > 0 && height > 0
  {
    TexRect(xIndex as real / width as real, 0.0, image.width as real / width as real, image.height as real / height as real)
  }

  /** The freshly resized collage is all blank: nothing is copied yet. */
  lemma CollageStart(images: seq<RawImage>, canvas: RawImage)
    requires canvas.width > 0 && forall k :: 0 <= k < |canvas.pixels| ==> canvas.pixels[k] == Blank
    ensures forall k :: 0 <= k < |canvas.pixels| ==> canvas.pixels[k] == CollageProgress(images, canvas.width, 0, 0, 0, k)
  {
  }

  /** CollageGeneratorRGBA: collects images, then lays them out side by side. */
  class CollageGenerator {
    var images: seq<RawImage>

    constructor ()
      ensures images == []
    {
      images := [];
    }

    /** add_image: appends and returns the previous image count as the new index. */
    method AddImage(image: RawImage) returns (index: int)
      modifies this
      ensures images == old(images) + [image]
      ensures index == |old(images)| && images[index] == image
    {
      images := images + [image];
      index := |images| - 1;
    }

    /**
     * generate_collage: width upper_power_of_two(sum of widths), height
     * upper_power_of_two(max height); image i is copied at x offset equal to
     * the summed earlier widths and y offset 0; every other pixel stays blank.
     */
    method GenerateCollage() returns (c: Collage)
      requires forall i :: 0 <= i < |images| ==> images[i].Valid()
      requires TotalWidth(images) <= MaxUpperPowerInput && MaxHeight(images) <= MaxUpperPowerInput
      ensures c.image.width == UpperPow2(TotalWidth(images)) && c.image.height == UpperPow2(MaxHeight(images))
      ensures c.image.Valid()
      ensures forall k :: 0 <= k < |c.image.pixels| ==> c.image.pixels[k] == CollagePixelAt(images, c.image.width, k)
      ensures |c.imageRects| == |images|
      ensures forall i :: 0 <= i < |images| ==> c.imageRects[i] == TextureRect(Offset(images, i), images[i], c.image.width, c.image.height)
    {
      var xSum, maxY := MeasureImages();
      var width := UpperPowerOfTwo(xSum);
      var height := UpperPowerOfTwo(maxY);
      var image, rects := PlaceImages(width, height);
      forall k | 0 <= k < |image.pixels|
        ensures image.pixels[k] == CollagePixelAt(images, width, k)
      {
        CollageAllDone(images, width, k);
      }
      c := Collage(image, rects);
    }

    /** The first loop of generate_collage: the summed widths and the largest height. */
    method MeasureImages() returns (xSum: nat, maxY: nat)
      ensures xSum == TotalWidth(images) && maxY == MaxHeight(images)
    {
      xSum := 0;
      maxY := 0;
      var i := 0;
      while i < |images|
        invariant 0 <= i <= |images|
        invariant xSum == TotalWidth(images[..i]) && maxY == MaxHeight(images[..i])
      {
        assert images[..i + 1][..i] == images[..i];
        xSum := xSum + images[i].width;
        maxY := if maxY >= images[i].height then maxY else images[i].height;
        i := i + 1;
      }
      assert images[..|images|] == images;
    }

    /**
     * The second loop of generate_collage: each image copied in at the
     * running x offset of a blank width x height image, and its texture
     * rectangle recorded.
     */
    method PlaceImages(width: nat, height: nat) returns (image: RawImage, rects: seq<TexRect>)
      requires forall i :: 0 <= i < |images| ==> images[i].Valid()
      requires width > 0 && height > 0 && TotalWidth(images) <= width && MaxHeight(images) <= height
      ensures image.width == width && image.height == height && |image.pixels| == width * height
      ensures forall k :: 0 <= k < |image.pixels| ==> image.pixels[k] == CollageProgress(images, width, |images|, 0, 0, k)
      ensures |rects| == |images|
      ensures forall j :: 0 <= j < |images| ==> rects[j] == TextureRect(Offset(images, j), images[j], width, height)
    {
      image := RawImage(width, height, seq(width * height, _ => Blank));
      CollageStart(images, image);
      rects := [];
      var xIndex := 0;
      var i := 0;
      while i < |images|
        invariant 0 <= i <= |images|
        invariant image.width == width && image.height == height && |image.pixels| == width * height
        invariant xIndex == Offset(images, i)
        invariant forall k :: 0 <= k < |image.pixels| ==> image.pixels[k] == CollageProgress(images, width, i, 0, 0, k)
        invariant |rects| == i
        invariant forall j :: 0 <= j < i ==> rects[j] == TextureRect(Offset(images, j), images[j], width, height)
      {
        var rect := TextureRect(xIndex, images[i], width, height);
        assert images[..|images|] == images;
        OffsetMonotone(images, i + 1, |images|);
        OffsetStep(images, i);
        image := CopyIntoCollage(images, i, image);
        xIndex := xIndex + images[i].width;
        ghost var done := rects;
        rects := rects + [rect];
        assert forall j :: 0 <= j < i ==> rects[j] == done[j];
        i := i + 1;
      }
    }
  }
}
