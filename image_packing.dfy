/**
 * Packing many small images into one square image: the rectangles of the
 * images are packed with the power-of-two square packer, each image's
 * pixels are copied to its rectangle, and the rectangle is recorded under
 * the image's name. Also the 5 x 9 letter images built from glyph strings.
 */
module ImagePacking {
  import opened BasicMath
  import opened Shapes
  import opened RectPacking
  import opened RectPackingSquare
  import opened GpuTexture
  import opened Strings

  // ---- the bound checks of _set_image_pixels ----

  /**
   * The checks _set_image_pixels makes, as written: sizes agree, the
   * rectangle starts inside the packed image and ends strictly before its
   * right and bottom edges.
   */
  predicate SetImagePixelsChecksAsWritten(image: RawImage, rect: Rect, packed: RawImage)
  {
    image.width == rect.w && image.height == rect.h && |image.pixels| == rect.w * rect.h
    && rect.MinX() >= 0 && rect.MinY() >= 0
    && rect.MaxX() < packed.width && rect.MaxY() < packed.height
    && packed.Valid()
  }

  /** An image of rect's size whose rectangle lies within a width x height image, edges included. */
  predicate FitsWithin(image: RawImage, rect: Rect, width: int, height: int)
  {
    image.width == rect.w && image.height == rect.h && |image.pixels| == rect.w * rect.h
    && rect.MinX() >= 0 && rect.MinY() >= 0
    && rect.MaxX() <= width && rect.MaxY() <= height
  }

  /** The same checks with the right and bottom edges allowed to touch the packed image's edges. */
  predicate SetImagePixelsChecks(image: RawImage, rect: Rect, packed: RawImage)
  {
    FitsWithin(image, rect, packed.width, packed.height) && packed.Valid()
  }

  /** The packer starts from side 8 for one 8 x 1 rectangle: sqrt(8) rounds to 2, the longest side to 8. */
  lemma OneWideInitialGrid()
    ensures InitialGrid([Rect(0, 0, 8, 1)]) == 8
  {
    var orig := [Rect(0, 0, 8, 1)];
    assert orig[..0] == [];
    assert AreaOf(orig) == 8;
    assert MaxSideOf(orig) == 8;
    FloorSqrtIsTwo(8);
    assert UpperPow2(2) == 2;
    assert UpperPow2(8) == 8 by {
      assert UpperPow2(4) == 4;
    }
  }

  /** The integer square root of any n from 4 to 8 is 2. */
  lemma FloorSqrtIsTwo(n: nat)
    requires 4 <= n <= 8
    ensures FloorSqrt(n) == 2
  {
    var s := FloorSqrt(n);
    if s <= 1 {
      SquareMonotone(s + 1, 2);
    } else if s >= 3 {
      SquareMonotone(3, s);
    }
  }

  lemma SquareMonotone(a: nat, b: nat)
    requires a <= b
    ensures a * a <= b * b
  {
    assert b * b - a * a == (b - a) * (b + a);
  }

  /** The 8 x 1 rectangle starts a new shelf at once (8 + 0 reaches 8) and lands at (0, 1). */
  lemma OneWideFit()
    ensures Fit([Rect(0, 0, 8, 1)], 8, 8) == (true, [Rect(0, 1, 8, 1)])
  {
    var orig := [Rect(0, 0, 8, 1)];
    assert orig[0 := Rect(0, 1, 8, 1)] == [Rect(0, 1, 8, 1)];
    assert FitLoop(orig, 8, 8, 0, 0, 1, 0) == FitLoop([Rect(0, 1, 8, 1)], 8, 8, 1, 1, 1, 8);
  }

  /**
   * One 8 x 1 image: the square packer returns side 8 and places the image
   * at (0, 1), so its right edge is the packed image's right edge and the
   * strict check rejects a placement the packer made.
   */
  lemma OneWideImageFailsStrictCheck(grid: nat, byHeight: seq<Rect>, placed: seq<Rect>, image: RawImage, packed: RawImage)
    requires var orig := [Rect(0, 0, 8, 1)];
      IsPow2(grid) && grid >= InitialGrid(orig)
      && |byHeight| == 1 && byHeight[0] in orig
      && (Fit(byHeight, InitialGrid(orig), InitialGrid(orig)).0 ==> grid == InitialGrid(orig))
      && SameSizes(orig, placed)
      && (forall j :: 0 <= j < |placed| ==> PlacedWithin(placed[j], grid, grid) && placed[j].MaxX() <= grid)
    requires packed.width == grid
    ensures grid == 8 && placed[0].x == 0 && placed[0].MaxX() == packed.width
    ensures !SetImagePixelsChecksAsWritten(image, placed[0], packed)
  {
    OneWideInitialGrid();
    OneWideFit();
    assert byHeight == [Rect(0, 0, 8, 1)];
  }

  /** The square packer's placements always pass the corrected checks. */
  lemma PackedPlacementsPassChecks(grid: nat, orig: seq<Rect>, placed: seq<Rect>, images: seq<RawImage>)
    requires |images| == |orig| && SameSizes(orig, placed)
    requires forall j :: 0 <= j < |orig| ==> images[j].Valid() && orig[j].w == images[j].width && orig[j].h == images[j].height
    requires forall j :: 0 <= j < |placed| ==> PlacedWithin(placed[j], grid, grid) && placed[j].MaxX() <= grid
    ensures SizedFor(images, placed)
    ensures forall j :: 0 <= j < |placed| ==> FitsWithin(images[j], placed[j], grid, grid)
  {
  }

  // ---- copying one image into the packed image ----

  /** The pixel at index k of the packed image once image has been copied to rect. */
  ghost function CopiedPixel(before: seq<Pixel>, width: nat, image: RawImage, rect: Rect, k: nat): Pixel
    requires width > 0 && image.Valid() && image.width == rect.w && image.height == rect.h && k < |before|
  {
    var col, row := k % width, k / width;
    if CoversCell(rect, col, row) then ImagePixel(image, col - rect.x, row - rect.y) else before[k]
  }

  /** The pixel at index k after the copy loops reached column x, row y of the image. */
  ghost function CopyProgress(before: seq<Pixel>, width: nat, image: RawImage, rect: Rect, x: int, y: int, k: nat): Pixel
    requires width > 0 && image.Valid() && image.width == rect.w && image.height == rect.h && k < |before|
  {
    var col, row := k % width, k / width;
    if CoversCell(rect, col, row) && ColumnMajorDone(x, y, col - rect.x, row - rect.y)
    then ImagePixel(image, col - rect.x, row - rect.y)
    else before[k]
  }

  /** Before the first column nothing has been copied. */
  lemma CopyStart(before: seq<Pixel>, width: nat, image: RawImage, rect: Rect, k: nat)
    requires width > 0 && image.Valid() && image.width == rect.w && image.height == rect.h && k < |before|
    ensures CopyProgress(before, width, image, rect, 0, 0, k) == before[k]
  {
  }

  /** Ending column x (all its rows written) is starting column x + 1. */
  lemma CopyColumnEnd(before: seq<Pixel>, width: nat, image: RawImage, rect: Rect, x: int, k: nat)
    requires width > 0 && image.Valid() && image.width == rect.w && image.height == rect.h && k < |before|
    ensures CopyProgress(before, width, image, rect, x, rect.h, k) == CopyProgress(before, width, image, rect, x + 1, 0, k)
  {
  }

  /** With every column written, the copy is complete. */
  lemma CopyAllDone(before: seq<Pixel>, width: nat, image: RawImage, rect: Rect, k: nat)
    requires width > 0 && image.Valid() && image.width == rect.w && image.height == rect.h && k < |before|
    ensures CopyProgress(before, width, image, rect, rect.w, 0, k) == CopiedPixel(before, width, image, rect, k)
  {
  }

  /** Writing pixel (x, y) of the image at (rect.x + x, rect.y + y) advances the copy by one row. */
  lemma CopyWriteStep(before: seq<Pixel>, current: seq<Pixel>, width: nat, height: nat, image: RawImage, rect: Rect, x: nat, y: nat)
    requires width > 0 && |before| == |current| == width * height
    requires image.Valid() && image.width == rect.w && image.height == rect.h && x < rect.w && y < rect.h
    requires rect.x >= 0 && rect.y >= 0 && rect.MaxX() <= width && rect.MaxY() <= height
    requires forall k :: 0 <= k < |current| ==> current[k] == CopyProgress(before, width, image, rect, x, y, k)
    ensures var idx := PixelIndex(width, rect.x + x, rect.y + y);
      0 <= idx < |current| &&
      var after := current[idx := ImagePixel(image, x, y)];
      forall k :: 0 <= k < |after| ==> after[k] == CopyProgress(before, width, image, rect, x, y + 1, k)
  {
    var col0, row0 := rect.x + x, rect.y + y;
    IndexInImage(width, height, col0, row0);
    IndexDecode(width, col0, row0);
    var idx := PixelIndex(width, col0, row0);
    var after := current[idx := ImagePixel(image, x, y)];
    forall k | 0 <= k < |after|
      ensures after[k] == CopyProgress(before, width, image, rect, x, y + 1, k)
    {
      if k != idx {
        IndexSplit(width, k);
      }
    }
  }

  // ---- RawImageRGBAPacking ----

  /** RawImageRGBAPacking: the packed image and where each named image lies in it (in pixels). */
  class ImagePacker {
    var packed: RawImage
    var imagePos: map<string, Rect>

    /**
     * _set_image_pixels: copies the image column by column into rect of
     * the packed image; every pixel outside rect is left as it was.
     */
    method SetImagePixels(image: RawImage, rect: Rect)
      requires SetImagePixelsChecks(image, rect, packed) && packed.width > 0
      modifies this
      ensures packed.width == old(packed.width) && packed.height == old(packed.height) && packed.Valid()
      ensures imagePos == old(imagePos)
      ensures forall k :: 0 <= k < |packed.pixels| ==>
        packed.pixels[k] == CopiedPixel(old(packed.pixels), packed.width, image, rect, k)
    {
      ghost var before := packed.pixels;
      var width, height := packed.width, packed.height;
      forall k | 0 <= k < |before|
        ensures before[k] == CopyProgress(before, width, image, rect, 0, 0, k)
      {
        CopyStart(before, width, image, rect, k);
      }
      var x := 0;
      while x < rect.w
        invariant 0 <= x <= rect.w
        invariant packed.width == width && packed.height == height && |packed.pixels| == width * height
        invariant imagePos == old(imagePos)
        invariant forall k :: 0 <= k < |packed.pixels| ==> packed.pixels[k] == CopyProgress(before, width, image, rect, x, 0, k)
      {
        var y := 0;
        while y < rect.h
          invariant 0 <= y <= rect.h
          invariant packed.width == width && packed.height == height && |packed.pixels| == width * height
          invariant imagePos == old(imagePos)
          invariant forall k :: 0 <= k < |packed.pixels| ==> packed.pixels[k] == CopyProgress(before, width, image, rect, x, y, k)
        {
          var packedX := x + rect.x;
          var packedY := y + rect.y;
          IndexInImage(image.width, image.height, x, y);
          var pixel := GetPixel(image, x, y);
          assert pixel == ImagePixel(image, x, y);
          CopyWriteStep(before, packed.pixels, width, height, image, rect, x, y);
          packed := SetPixel(packed, pixel, packedX, packedY);
          y := y + 1;
        }
        forall k | 0 <= k < |packed.pixels|
          ensures packed.pixels[k] == CopyProgress(before, width, image, rect, x + 1, 0, k)
        {
          CopyColumnEnd(before, width, image, rect, x, k);
        }
        x := x + 1;
      }
      forall k | 0 <= k < |packed.pixels|
        ensures packed.pixels[k] == CopiedPixel(before, width, image, rect, k)
      {
        CopyAllDone(before, width, image, rect, k);
      }
    }

    /**
     * The drawing loop of the constructor: copies image j to rect placed[j],
     * in order. When no two rectangles overlap, each image ends up intact;
     * pixels outside every rectangle are left as they were.
     */
    method DrawImages(imgs: seq<RawImage>, placed: seq<Rect>)
      requires |imgs| == |placed| && packed.width > 0 && packed.Valid() && SizedFor(imgs, placed)
      requires forall j :: 0 <= j < |placed| ==> FitsWithin(imgs[j], placed[j], packed.width, packed.height)
      modifies this
      ensures packed.width == old(packed.width) && packed.height == old(packed.height) && packed.Valid()
      ensures imagePos == old(imagePos)
      ensures PairwiseSeparated(placed) ==> ImagesInPlace(packed.pixels, packed.width, imgs, placed, |placed|)
      ensures forall k :: 0 <= k < |packed.pixels| && CoveredByNone(placed, |placed|, k % packed.width, k / packed.width) ==>
        packed.pixels[k] == old(packed.pixels)[k]
    {
      var i := 0;
      while i < |imgs|
        invariant 0 <= i <= |imgs|
        invariant packed.width == old(packed.width) && packed.height == old(packed.height) && packed.Valid()
        invariant imagePos == old(imagePos)
        invariant PairwiseSeparated(placed) ==> ImagesInPlace(packed.pixels, packed.width, imgs, placed, i)
        invariant forall k :: 0 <= k < |packed.pixels| && CoveredByNone(placed, i, k % packed.width, k / packed.width) ==>
          packed.pixels[k] == old(packed.pixels)[k]
      {
        ghost var before := packed.pixels;
        SetImagePixels(imgs[i], placed[i]);
        CopyKeepsUncovered(before, packed.pixels, packed.width, imgs, placed, i);
        if PairwiseSeparated(placed) {
          DrawKeepsEarlierImages(before, packed.pixels, packed.width, imgs, placed, i);
        }
        i := i + 1;
      }
    }

    /** The recording loop of the constructor: image_pos[names[j]] = placed[j] for every (distinct) name. */
    method RecordPositions(names: seq<string>, placed: seq<Rect>)
      requires |names| == |placed| && imagePos == map[]
      requires forall i, j :: 0 <= i < j < |names| ==> names[i] != names[j]
      modifies this
      ensures packed == old(packed)
      ensures forall name :: name in imagePos ==> name in names
      ensures forall j :: 0 <= j < |names| ==> names[j] in imagePos && imagePos[names[j]] == placed[j]
    {
      var i := 0;
      while i < |names|
        invariant 0 <= i <= |names|
        invariant packed == old(packed)
        invariant forall name :: name in imagePos ==> name in names[..i]
        invariant forall j :: 0 <= j < i ==> names[j] in imagePos && imagePos[names[j]] == placed[j]
      {
        imagePos := imagePos[names[i] := placed[i]];
        assert names[..i + 1] == names[..i] + [names[i]];
        i := i + 1;
      }
      assert names[..|names|] == names;
    }

    /**
     * The RawImageRGBAPacking constructor: names are the keys of the image
     * map in its iteration order. One rectangle (0, 0, w, h) per image is
     * packed into a square of power-of-two side, the pixels are copied, and
     * the rectangles are recorded by name.
     */
    constructor (names: seq<string>, images: map<string, RawImage>)
      requires forall i, j :: 0 <= i < j < |names| ==> names[i] != names[j]
      requires forall i :: 0 <= i < |names| ==> names[i] in images
      requires forall name :: name in images ==> name in names
      requires forall name :: name in images ==> images[name].Valid()
      ensures IsPow2(packed.width) && packed.height == packed.width && packed.Valid()
      ensures forall name :: name in imagePos <==> name in images
      ensures forall name :: name in images ==>
        name in imagePos && imagePos[name].w == images[name].width && imagePos[name].h == images[name].height
        && SetImagePixelsChecks(images[name], imagePos[name], packed)
      ensures ImagesAtNames(images, imagePos, packed.pixels, packed.width)
      ensures BlankOutsideImages(imagePos, packed.pixels, packed.width)
    {
      var imgs := seq(|names|, j requires 0 <= j < |names| => images[names[j]]);
      assert forall j :: 0 <= j < |names| ==> names[j] in images && imgs[j] == images[names[j]];
      var size, placed := PackImages(imgs);
      packed := BlankImage(size, size);
      imagePos := map[];
      new;
      DrawImages(imgs, placed);
      RecordPositions(names, placed);
      RecordedKeys(names, images, imagePos);
      SizesByName(names, images, imgs, placed, imagePos, packed);
      PixelsByName(names, images, imgs, placed, imagePos, packed.pixels, packed.width);
      BlankByName(names, placed, imagePos, packed.pixels, packed.width);
    }

    /**
     * The packing step of the constructor: one rectangle (0, 0, w, h) per
     * image, packed by rect_packing_pow2_sq. Every image fits its rectangle,
     * and no two rectangles overlap.
     */
    static method PackImages(imgs: seq<RawImage>) returns (size: nat, placed: seq<Rect>)
      requires forall j :: 0 <= j < |imgs| ==> imgs[j].Valid()
      ensures IsPow2(size) && |placed| == |imgs| && SizedFor(imgs, placed)
      ensures forall j :: 0 <= j < |placed| ==> FitsWithin(imgs[j], placed[j], size, size)
      ensures PairwiseSeparated(placed)
    {
      var rects := new Rect[|imgs|];
      var i := 0;
      while i < |imgs|
        invariant 0 <= i <= |imgs|
        invariant forall j :: 0 <= j < i ==> rects[j] == Rect(0, 0, imgs[j].width, imgs[j].height)
      {
        rects[i] := Rect(0, 0, imgs[i].width, imgs[i].height);
        i := i + 1;
      }
      ghost var orig := rects[..];
      ghost var byHeight;
      size, byHeight := RectPackingPow2Sq(rects);
      placed := rects[..];
      PackedPlacementsPassChecks(size, orig, placed, imgs);
    }
  }

  /** Recording every listed name gives exactly the names of the image map. */
  lemma RecordedKeys(names: seq<string>, images: map<string, RawImage>, imagePos: map<string, Rect>)
    requires forall i :: 0 <= i < |names| ==> names[i] in images
    requires forall name :: name in images ==> name in names
    requires forall name :: name in imagePos ==> name in names
    requires forall j :: 0 <= j < |names| ==> names[j] in imagePos
    ensures forall name :: name in imagePos <==> name in images
  {
  }

  /** Where name is listed. */
  function IndexOf(names: seq<string>, name: string): (j: nat)
    requires name in names
    ensures j < |names| && names[j] == name
  {
    if names[0] == name then 0 else 1 + IndexOf(names[1..], name)
  }

  /** The listing of a name, with its recorded rectangle and its image. */
  lemma NameAt(names: seq<string>, images: map<string, RawImage>, imgs: seq<RawImage>, placed: seq<Rect>,
               imagePos: map<string, Rect>, name: string) returns (j: nat)
    requires forall name :: name in images ==> name in names
    requires |imgs| == |names| == |placed| && forall j :: 0 <= j < |names| ==> names[j] in images && imgs[j] == images[names[j]]
    requires forall j :: 0 <= j < |names| ==> names[j] in imagePos && imagePos[names[j]] == placed[j]
    requires name in images
    ensures j < |names| && names[j] == name && imagePos[name] == placed[j] && images[name] == imgs[j]
  {
    j := IndexOf(names, name);
  }

  /** Looked up by name, the recorded rectangles have their images' sizes and pass the corrected checks. */
  lemma SizesByName(names: seq<string>, images: map<string, RawImage>, imgs: seq<RawImage>, placed: seq<Rect>,
                    imagePos: map<string, Rect>, packed: RawImage)
    requires forall name :: name in images ==> name in names
    requires |imgs| == |names| == |placed| && forall j :: 0 <= j < |names| ==> names[j] in images && imgs[j] == images[names[j]]
    requires forall j :: 0 <= j < |names| ==> names[j] in imagePos && imagePos[names[j]] == placed[j]
    requires packed.Valid()
    requires forall j :: 0 <= j < |placed| ==> FitsWithin(imgs[j], placed[j], packed.width, packed.height)
    ensures forall name :: name in images ==>
      name in imagePos && imagePos[name].w == images[name].width && imagePos[name].h == images[name].height
      && SetImagePixelsChecks(images[name], imagePos[name], packed)
  {
    forall name | name in images
      ensures name in imagePos && imagePos[name].w == images[name].width && imagePos[name].h == images[name].height
      ensures SetImagePixelsChecks(images[name], imagePos[name], packed)
    {
      var j := NameAt(names, images, imgs, placed, imagePos, name);
      assert FitsWithin(imgs[j], placed[j], packed.width, packed.height);
    }
  }

  /** Looked up by name, each image sits intact at its recorded rectangle. */
  lemma PixelsByName(names: seq<string>, images: map<string, RawImage>, imgs: seq<RawImage>, placed: seq<Rect>,
                     imagePos: map<string, Rect>, pixels: seq<Pixel>, width: nat)
    requires forall name :: name in images ==> name in names && images[name].Valid()
    requires |imgs| == |names| == |placed| && forall j :: 0 <= j < |names| ==> names[j] in images && imgs[j] == images[names[j]]
    requires forall j :: 0 <= j < |names| ==> names[j] in imagePos && imagePos[names[j]] == placed[j]
    requires width > 0 && SizedFor(imgs, placed)
    requires ImagesInPlace(pixels, width, imgs, placed, |placed|)
    requires forall name :: name in images ==>
      name in imagePos && imagePos[name].w == images[name].width && imagePos[name].h == images[name].height
    ensures ImagesAtNames(images, imagePos, pixels, width)
  {
    forall name, k | name in images && 0 <= k < |pixels| && CoversCell(imagePos[name], k % width, k / width)
      ensures pixels[k] == ImagePixel(images[name], k % width - imagePos[name].x, k / width - imagePos[name].y)
    {
      var j := NameAt(names, images, imgs, placed, imagePos, name);
      InPlaceAt(pixels, width, imgs, placed, |placed|, j, k);
    }
  }

  /** A pixel that no recorded rectangle covers is still the blank pixel it started as. */
  lemma BlankByName(names: seq<string>, placed: seq<Rect>, imagePos: map<string, Rect>, pixels: seq<Pixel>, width: nat)
    requires width > 0 && |names| == |placed|
    requires forall name :: name in imagePos ==> name in names
    requires forall j :: 0 <= j < |names| ==> names[j] in imagePos && imagePos[names[j]] == placed[j]
    requires forall k :: 0 <= k < |pixels| && CoveredByNone(placed, |placed|, k % width, k / width) ==> pixels[k] == Blank
    ensures BlankOutsideImages(imagePos, pixels, width)
  {
    forall k | 0 <= k < |pixels| && (forall name :: name in imagePos ==> !CoversCell(imagePos[name], k % width, k / width))
      ensures pixels[k] == Blank
    {
      forall j | 0 <= j < |placed|
        ensures !CoversCell(placed[j], k % width, k / width)
      {
        assert names[j] in imagePos;
      }
    }
  }

  /** No rectangle among the first n covers the cell (col, row). */
  predicate CoveredByNone(placed: seq<Rect>, n: nat, col: int, row: int)
    requires n <= |placed|
  {
    forall j :: 0 <= j < n ==> !CoversCell(placed[j], col, row)
  }

  /** Every pixel outside all recorded rectangles is blank. */
  ghost predicate BlankOutsideImages(imagePos: map<string, Rect>, pixels: seq<Pixel>, width: nat)
    requires width > 0
  {
    forall k :: 0 <= k < |pixels| && (forall name :: name in imagePos ==> !CoversCell(imagePos[name], k % width, k / width)) ==>
      pixels[k] == Blank
  }

  /** Copying image i leaves every pixel outside rectangles 0..i as it was before the drawing loop. */
  lemma CopyKeepsUncovered(before: seq<Pixel>, after: seq<Pixel>, width: nat, imgs: seq<RawImage>, placed: seq<Rect>, i: nat)
    requires width > 0 && i < |imgs| == |placed| && |before| == |after| && SizedFor(imgs, placed)
    requires forall k :: 0 <= k < |after| ==> after[k] == CopiedPixel(before, width, imgs[i], placed[i], k)
    ensures forall k :: 0 <= k < |after| && CoveredByNone(placed, i + 1, k % width, k / width) ==> after[k] == before[k]
    ensures forall k :: 0 <= k < |after| && CoveredByNone(placed, i + 1, k % width, k / width) ==>
      CoveredByNone(placed, i, k % width, k / width)
  {
  }

  /**
   * Looked up by name, each image sits intact at its recorded rectangle
   * (index k decoded as column k % width, row k / width).
   */
  ghost predicate ImagesAtNames(images: map<string, RawImage>, imagePos: map<string, Rect>, pixels: seq<Pixel>, width: nat)
    requires width > 0
    requires forall name :: name in images ==>
      images[name].Valid() && name in imagePos && imagePos[name].w == images[name].width && imagePos[name].h == images[name].height
  {
    forall name, k :: name in images && 0 <= k < |pixels| && CoversCell(imagePos[name], k % width, k / width) ==>
      pixels[k] == ImagePixel(images[name], k % width - imagePos[name].x, k / width - imagePos[name].y)
  }

  /** Images 0..n-1 sit intact at their rectangles (index k decoded as column k % width, row k / width). */
  ghost predicate ImagesInPlace(pixels: seq<Pixel>, width: nat, imgs: seq<RawImage>, placed: seq<Rect>, n: nat)
    requires width > 0 && n <= |imgs| == |placed| && SizedFor(imgs, placed)
  {
    forall j, k :: 0 <= j < n && 0 <= k < |pixels| && CoversCell(placed[j], k % width, k / width) ==>
      pixels[k] == ImagePixel(imgs[j], k % width - placed[j].x, k / width - placed[j].y)
  }

  /** Each image is well formed and has its rectangle's size. */
  predicate SizedFor(imgs: seq<RawImage>, placed: seq<Rect>)
    requires |imgs| == |placed|
  {
    forall j :: 0 <= j < |imgs| ==> imgs[j].Valid() && imgs[j].width == placed[j].w && imgs[j].height == placed[j].h
  }

  /** One pixel of an image in place. */
  lemma InPlaceAt(pixels: seq<Pixel>, width: nat, imgs: seq<RawImage>, placed: seq<Rect>, n: nat, j: nat, k: nat)
    requires width > 0 && n <= |imgs| == |placed| && SizedFor(imgs, placed)
    requires ImagesInPlace(pixels, width, imgs, placed, n)
    requires j < n && k < |pixels| && CoversCell(placed[j], k % width, k / width)
    ensures pixels[k] == ImagePixel(imgs[j], k % width - placed[j].x, k / width - placed[j].y)
  {
  }

  /** Drawing image i into a rectangle that overlaps no other keeps the images drawn before it. */
  lemma DrawKeepsEarlierImages(before: seq<Pixel>, after: seq<Pixel>, width: nat, imgs: seq<RawImage>, placed: seq<Rect>, i: nat)
    requires width > 0 && i < |imgs| == |placed| && |before| == |after| && SizedFor(imgs, placed)
    requires PairwiseSeparated(placed) && ImagesInPlace(before, width, imgs, placed, i)
    requires forall k :: 0 <= k < |after| ==> after[k] == CopiedPixel(before, width, imgs[i], placed[i], k)
    ensures ImagesInPlace(after, width, imgs, placed, i + 1)
  {
    forall j, k | 0 <= j < i + 1 && 0 <= k < |after| && CoversCell(placed[j], k % width, k / width)
      ensures after[k] == ImagePixel(imgs[j], k % width - placed[j].x, k / width - placed[j].y)
    {
      if j < i {
        SeparatedHasNoCommonCell(placed[i], placed[j]);
      }
    }
  }

  // ---- letter images ----

  const LetterWidth := 5
  const LetterHeight := 9
  const White := Pixel(255, 255, 255, 255)

  /** A glyph character: '.' is a transparent black pixel, anything else opaque white. */
  function GlyphPixel(c: char): Pixel
  {
    if c == '.' then Blank else White
  }

  /** The letter image a glyph string describes, pixel k from glyph[k]. */
  function LetterImage(glyph: string): RawImage
    requires |glyph| == LetterWidth * LetterHeight
  {
    RawImage(LetterWidth, LetterHeight, seq(|glyph|, k requires 0 <= k < |glyph| => GlyphPixel(glyph[k])))
  }

  /** Pixel (x, y) of a letter image is blank exactly when glyph[x + 5 * y] is '.', and white otherwise. */
  lemma LetterImagePixels(glyph: string, x: nat, y: nat)
    requires |glyph| == LetterWidth * LetterHeight && x < LetterWidth && y < LetterHeight
    ensures LetterImage(glyph).Valid()
    ensures ImagePixel(LetterImage(glyph), x, y) == if glyph[x + LetterWidth * y] == '.' then Blank else White
  {
    assert x + LetterWidth * y == PixelIndex(LetterWidth, x, y);
  }

  /** The pixel at index k after the letter loops reached column x, row y. */
  ghost function LetterProgress(glyph: string, x: int, y: int, k: nat): Pixel
    requires |glyph| == LetterWidth * LetterHeight && k < |glyph|
  {
    if ColumnMajorDone(x, y, k % LetterWidth, k / LetterWidth) then GlyphPixel(glyph[k]) else Blank
  }

  /**
   * _get_letter_image: a 5 x 9 image whose pixel (x, y) is transparent black
   * exactly when glyph[x + 5 * y] is '.', and opaque white otherwise.
   */
  method GetLetterImage(glyph: string) returns (image: RawImage)
    requires |glyph| == LetterWidth * LetterHeight
    ensures image == LetterImage(glyph)
  {
    image := RawImage(LetterWidth, LetterHeight, seq(LetterWidth * LetterHeight, _ => Blank));
    var x := 0;
    while x < LetterWidth
      invariant 0 <= x <= LetterWidth
      invariant image.width == LetterWidth && image.height == LetterHeight && |image.pixels| == |glyph|
      invariant forall k :: 0 <= k < |image.pixels| ==> image.pixels[k] == LetterProgress(glyph, x, 0, k)
    {
      var y := 0;
      while y < LetterHeight
        invariant 0 <= y <= LetterHeight
        invariant image.width == LetterWidth && image.height == LetterHeight && |image.pixels| == |glyph|
        invariant forall k :: 0 <= k < |image.pixels| ==> image.pixels[k] == LetterProgress(glyph, x, y, k)
      {
        var pixelIndex := x + y * LetterWidth;
        var emptyPixel := glyph[pixelIndex] == '.';
        ghost var before := image.pixels;
        if emptyPixel {
          image := SetPixel(image, Pixel(0, 0, 0, 0), x, y);
        } else {
          image := SetPixel(image, Pixel(255, 255, 255, 255), x, y);
        }
        forall k | 0 <= k < |image.pixels|
          ensures image.pixels[k] == LetterProgress(glyph, x, y + 1, k)
        {
          if k != pixelIndex {
            assert image.pixels[k] == before[k];
          }
        }
        y := y + 1;
      }
      x := x + 1;
    }
    assert image.pixels == LetterImage(glyph).pixels;
  }

  /** The key get_ascii_images files a letter under: std::to_string of its character code. */
  function CharKey(c: char): string
  {
    DecimalString(c as int)
  }

  /** Different characters get different keys. */
  lemma CharKeyInjective(a: char, b: char)
    ensures CharKey(a) == CharKey(b) ==> a == b
  {
    DecimalStringInjective(a as int, b as int);
  }

  /**
   * get_ascii_images: one letter image per entry of the glyph table (its
   * characters distinct, as a map's keys are), filed under the character's
   * decimal code.
   */
  method GetAsciiImages(table: seq<(char, string)>) returns (images: map<string, RawImage>)
    requires forall i, j :: 0 <= i < j < |table| ==> table[i].0 != table[j].0
    requires forall i :: 0 <= i < |table| ==> |table[i].1| == LetterWidth * LetterHeight
    ensures forall key :: key in images <==> exists i :: 0 <= i < |table| && CharKey(table[i].0) == key
    ensures forall i :: 0 <= i < |table| ==> CharKey(table[i].0) in images && images[CharKey(table[i].0)] == LetterImage(table[i].1)
  {
    images := map[];
    var i := 0;
    while i < |table|
      invariant 0 <= i <= |table|
      invariant forall key :: key in images <==> exists j :: 0 <= j < i && CharKey(table[j].0) == key
      invariant forall j :: 0 <= j < i ==> CharKey(table[j].0) in images && images[CharKey(table[j].0)] == LetterImage(table[j].1)
    {
      var image := GetLetterImage(table[i].1);
      forall j | 0 <= j < i
        ensures CharKey(table[j].0) != CharKey(table[i].0)
      {
        CharKeyInjective(table[j].0, table[i].0);
      }
      images := images[CharKey(table[i].0) := image];
      i := i + 1;
    }
  }
}
