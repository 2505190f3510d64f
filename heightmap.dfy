/**
 * The terrain heightmap of the scene: an RGBA image is turned into a
 * row-major grid of normalised brightness values (getHeightData), and a
 * world point (x, z) on the square terrain plane centred at the origin is
 * mapped to a clamped grid cell whose value, scaled by the maximum terrain
 * height, is the terrain height there (getHeightAt).
 */
module Heightmap {

  /** One channel of an RGBA pixel, as the canvas image data stores it. */
  type Byte = b: int | 0 <= b < 256

  /** Each pixel takes four bytes: red, green, blue and alpha. */
  const BytesPerPixel: nat := 4

  /** Largest channel value; brightness is divided by it to normalise. */
  const MaxChannel: real := 255.0

  /** The result of a lookup: None stands for reading past the end of the
      height array, which the script turns into NaN. */
  datatype Option<T> = None | Some(value: T)

  // ---------------------------------------------------------------------
  // Row-major grid indexing
  // ---------------------------------------------------------------------

  /** Position of cell (x, y) in a row-major grid whose rows are `width` long. */
  function PixelIndex(width: nat, x: nat, y: nat): nat
  {
    y * width + x
  }

  /** Byte offset of the first (red) channel of pixel (x, y). */
  function ByteOffset(width: nat, x: nat, y: nat): nat
  {
    PixelIndex(width, x, y) * BytesPerPixel
  }

  /** Every cell of a width-by-height grid has an index below width * height. */
  lemma GridIndexInBounds(width: nat, height: nat, x: nat, y: nat)
    requires x < width && y < height
    ensures PixelIndex(width, x, y) < width * height
  {
    calc {
      PixelIndex(width, x, y);
    ==
      y * width + x;
    <
      y * width + width;
    ==
      (y + 1) * width;
    <= { MulMonotone(y + 1, height, width); }
      height * width;
    }
  }

  /** a <= b implies a * c <= b * c for a non-negative c. */
  lemma MulMonotone(a: nat, b: nat, c: nat)
    requires a <= b
    ensures a * c <= b * c
  {
    var d := b - a;
    assert b * c == a * c + d * c;
  }

  /** The index just past the end of row y is the start of row y + 1. */
  lemma NextRow(width: nat, y: nat)
    ensures PixelIndex(width, width, y) == PixelIndex(width, 0, y + 1)
  {
    assert (y + 1) * width == y * width + width;
  }

  /** Distinct cells have distinct indices: the row-major map is injective. */
  lemma GridIndexInjective(width: nat, x1: nat, y1: nat, x2: nat, y2: nat)
    requires x1 < width && x2 < width
    requires PixelIndex(width, x1, y1) == PixelIndex(width, x2, y2)
    ensures x1 == x2 && y1 == y2
  {
    if y1 < y2 {
      MulMonotone(y1 + 1, y2, width);
      assert false;
    } else if y2 < y1 {
      MulMonotone(y2 + 1, y1, width);
      assert false;
    }
  }

  /** Every index below width * height is the index of some cell: the
      column is i % width and the row i / width. */
  lemma GridIndexCovers(width: nat, height: nat, i: nat)
    requires i < width * height
    ensures width > 0
    ensures i % width < width && i / width < height
    ensures PixelIndex(width, i % width, i / width) == i
  {
    if width == 0 {
      assert false;
    }
    if i / width >= height {
      MulMonotone(height, i / width, width);
      assert false;
    }
  }

  // ---------------------------------------------------------------------
  // getHeightData
  // ---------------------------------------------------------------------

  /** With a stride of four bytes per pixel, all four bytes of every pixel
      of a width-by-height image lie inside its 4 * width * height byte
      buffer, and pixels that follow each other in row-major order start
      four bytes apart. */
  lemma PixelBytesInBuffer(width: nat, height: nat, x: nat, y: nat)
    requires x < width && y < height
    ensures ByteOffset(width, x, y) + BytesPerPixel <= BytesPerPixel * (width * height)
    ensures x + 1 < width ==> ByteOffset(width, x + 1, y) == ByteOffset(width, x, y) + BytesPerPixel
    ensures x + 1 == width ==> ByteOffset(width, 0, y + 1) == ByteOffset(width, x, y) + BytesPerPixel
  {
    GridIndexInBounds(width, height, x, y);
  }

  /** Normalised brightness of a pixel: the mean of its red, green and blue
      channels divided by 255. */
  function Brightness(r: Byte, g: Byte, b: Byte): (v: real)
    ensures 0.0 <= v <= 1.0
    ensures v == 0.0 <==> r == 0 && g == 0 && b == 0
    ensures v == 1.0 <==> r == 255 && g == 255 && b == 255
  {
    ((r + g + b) as real / 3.0) / MaxChannel
  }

  /** Brightness of the pixel whose red channel is at byte `4 * p`; the
      alpha channel at `4 * p + 3` is not read. */
  function BrightnessAt(pixels: seq<Byte>, p: nat): (v: real)
    requires BytesPerPixel * p + 2 < |pixels|
    ensures 0.0 <= v <= 1.0
    ensures v == 0.0 <==> pixels[BytesPerPixel * p] == 0 && pixels[BytesPerPixel * p + 1] == 0
                          && pixels[BytesPerPixel * p + 2] == 0
  {
    var o := BytesPerPixel * p;
    Brightness(pixels[o], pixels[o + 1], pixels[o + 2])
  }

  /** Brightness of pixel (x, y) of a width-by-height RGBA image: the
      brightness of pixel number y * width + x of the buffer read as a flat
      run of four-byte pixels. */
  function PixelBrightness(pixels: seq<Byte>, width: nat, height: nat, x: nat, y: nat): (v: real)
    requires |pixels| == BytesPerPixel * (width * height)
    requires x < width && y < height
    ensures BytesPerPixel * PixelIndex(width, x, y) + 2 < |pixels|
    ensures v == BrightnessAt(pixels, PixelIndex(width, x, y))
  {
    PixelBytesInBuffer(width, height, x, y);
    var o := ByteOffset(width, x, y);
    Brightness(pixels[o], pixels[o + 1], pixels[o + 2])
  }

  /** The height data of an image: one normalised brightness per pixel, in
      the order the pixels are stored. */
  function HeightData(pixels: seq<Byte>, width: nat, height: nat): (data: seq<real>)
    requires |pixels| == BytesPerPixel * (width * height)
    ensures |data| == width * height
    ensures forall i :: 0 <= i < |data| ==> 0.0 <= data[i] <= 1.0
  {
    seq(width * height, p requires 0 <= p < width * height => BrightnessAt(pixels, p))
  }

  /** The height data is row-major: the entry for column x of row y sits at
      y * width + x and holds the brightness of the bytes at
      (y * width + x) * 4, + 1 and + 2. */
  lemma HeightDataRowMajor(pixels: seq<Byte>, width: nat, height: nat, x: nat, y: nat)
    requires |pixels| == BytesPerPixel * (width * height)
    requires x < width && y < height
    ensures PixelIndex(width, x, y) < |HeightData(pixels, width, height)|
    ensures HeightData(pixels, width, height)[PixelIndex(width, x, y)]
         == PixelBrightness(pixels, width, height, x, y)
  {
    GridIndexInBounds(width, height, x, y);
  }

  /** getHeightData: fills a fresh array of width * height entries by
      walking the rows top to bottom and each row left to right, writing the
      brightness of pixel (x, y) through a running counter i. */
  method GetHeightData(pixels: seq<Byte>, width: nat, height: nat) returns (data: array<real>)
    requires |pixels| == BytesPerPixel * (width * height)
    ensures fresh(data)
    ensures data.Length == width * height
    ensures data[..] == HeightData(pixels, width, height)
    ensures forall y: nat, x: nat :: y < height && x < width ==>
              PixelIndex(width, x, y) < data.Length &&
              data[PixelIndex(width, x, y)] == PixelBrightness(pixels, width, height, x, y)
  {
    data := new real[width * height];
    var i := 0;
    var y := 0;
    while y < height
      invariant 0 <= y <= height
      invariant i == PixelIndex(width, 0, y)
      invariant i <= data.Length
      invariant forall k :: 0 <= k < i ==> data[k] == BrightnessAt(pixels, k)
    {
      var x := 0;
      while x < width
        invariant 0 <= x <= width
        invariant i == PixelIndex(width, x, y)
        invariant i <= data.Length
        invariant forall k :: 0 <= k < i ==> data[k] == BrightnessAt(pixels, k)
      {
        GridIndexInBounds(width, height, x, y);
        PixelBytesInBuffer(width, height, x, y);
        var index := ByteOffset(width, x, y);
        var r := pixels[index];
        var g := pixels[index + 1];
        var b := pixels[index + 2];
        data[i] := Brightness(r, g, b);
        i := i + 1;
        x := x + 1;
      }
      NextRow(width, y);
      y := y + 1;
    }
    FilledIsHeightData(pixels, width, height, data[..]);
  }

  /** A sequence holding the brightness of pixel k at every index k is the
      height data, and so holds the brightness of pixel (x, y) at
      y * width + x. */
  lemma FilledIsHeightData(pixels: seq<Byte>, width: nat, height: nat, s: seq<real>)
    requires |pixels| == BytesPerPixel * (width * height)
    requires |s| == width * height
    requires forall k :: 0 <= k < |s| ==> BrightnessAt(pixels, k) == s[k]
    ensures s == HeightData(pixels, width, height)
    ensures forall y: nat, x: nat :: y < height && x < width ==>
              PixelIndex(width, x, y) < |s| &&
              s[PixelIndex(width, x, y)] == PixelBrightness(pixels, width, height, x, y)
  {
    assert s == HeightData(pixels, width, height);
    forall y: nat, x: nat | y < height && x < width
      ensures PixelIndex(width, x, y) < |s| &&
              s[PixelIndex(width, x, y)] == PixelBrightness(pixels, width, height, x, y)
    {
      HeightDataRowMajor(pixels, width, height, x, y);
    }
  }

  // ---------------------------------------------------------------------
  // getHeightAt
  // ---------------------------------------------------------------------

  /** Image column (or row) of world coordinate `coord` on a plane of side
      `planeSize` centred at the origin, for an image `cells` pixels across:
      floor((coord + planeSize / 2) / planeSize * cells). */
  function ImageCoord(coord: real, planeSize: real, cells: nat): int
    requires planeSize != 0.0
  {
    ((coord + planeSize / 2.0) / planeSize * cells as real).Floor
  }

  /** Math.max(0, Math.min(cells - 1, v)): the nearest index of a row of
      `cells` entries, or 0 when the row is empty. */
  function ClampIndex(v: int, cells: int): (c: int)
    ensures c >= 0
    ensures cells >= 1 ==> c <= cells - 1
    ensures 0 <= v < cells ==> c == v
    ensures v < 0 || cells <= 0 ==> c == 0
    ensures cells >= 1 && v >= cells ==> c == cells - 1
  {
    var m := if cells - 1 < v then cells - 1 else v;
    if 0 < m then m else 0
  }

  /** Index read by getHeightAt for image coordinates (imgX, imgZ):
      clampedZ * width + clampedX. */
  function LookupIndex(imgX: int, imgZ: int, width: nat, height: nat): (index: nat)
    ensures width >= 1 && height >= 1 ==> index < width * height
  {
    var cx := ClampIndex(imgX, width);
    var cz := ClampIndex(imgZ, height);
    if width >= 1 && height >= 1 then
      GridIndexInBounds(width, height, cx, cz);
      PixelIndex(width, cx, cz)
    else
      PixelIndex(width, cx, cz)
  }

  /** A normalised height value scaled to world units: a value in [0, 1]
      becomes a height in [0, maxHeight], 0 staying at the ground and 1
      reaching maxHeight. */
  function ScaleHeight(value: real, maxHeight: real): (h: real)
    ensures 0.0 <= value <= 1.0 && maxHeight >= 0.0 ==> 0.0 <= h <= maxHeight
    ensures value == 0.0 ==> h == 0.0
    ensures value == 1.0 ==> h == maxHeight
  {
    if maxHeight > 0.0 then
      ScaleBounds(value, maxHeight);
      value * maxHeight
    else
      value * maxHeight
  }

  /** The last part of getHeightAt, from image coordinates on: clamp
      both into the grid, read heightData at the row-major index and scale
      by maxHeight. The script reads heightData[index] without a bounds
      check; a read past the end yields undefined and the product NaN,
      which is None here. */
  function HeightAtCell(imgX: int, imgZ: int, heightData: seq<real>, width: nat, height: nat,
                        maxHeight: real): (h: Option<real>)
    ensures width >= 1 && height >= 1 && |heightData| == width * height ==> h.Some?
  {
    var index := LookupIndex(imgX, imgZ, width, height);
    if index < |heightData| then Some(ScaleHeight(heightData[index], maxHeight)) else None
  }

  /** getHeightAt: the terrain height at world point (x, z) of a square
      plane of side planeSize centred at the origin. */
  function GetHeightAt(x: real, z: real, heightData: seq<real>, width: nat, height: nat,
                       planeSize: real, maxHeight: real): (h: Option<real>)
    requires planeSize != 0.0
    ensures width >= 1 && height >= 1 && |heightData| == width * height ==> h.Some?
  {
    HeightAtCell(ImageCoord(x, planeSize, width), ImageCoord(z, planeSize, height), heightData, width, height, maxHeight)
  }

  /** The western (or northern) edge of the plane maps to image column 0. */
  lemma PlaneEdgeMapsToZero(planeSize: real, cells: nat)
    requires planeSize != 0.0
    ensures ImageCoord(-planeSize / 2.0, planeSize, cells) == 0
  {
    assert (-planeSize / 2.0 + planeSize / 2.0) / planeSize * cells as real == 0.0;
  }

  /** Where the ratio n / d falls, for a positive d, relative to 0 and 1. */
  lemma RatioBounds(n: real, d: real)
    requires d > 0.0
    ensures n <= 0.0 ==> n / d <= 0.0
    ensures 0.0 <= n < d ==> 0.0 <= n / d < 1.0
    ensures n >= d ==> n / d >= 1.0
  {
    var t := n / d;
    assert t * d == n;
    ScaleBounds(t, d);
  }

  /** t times a positive n lies in [0, n) when t lies in [0, 1), and is at
      most 0 or at least n when t is; the converse holds too. */
  lemma ScaleBounds(t: real, n: real)
    requires n > 0.0
    ensures t <= 0.0 <==> t * n <= 0.0
    ensures 0.0 <= t < 1.0 <==> 0.0 <= t * n < n
    ensures t >= 1.0 <==> t * n >= n
  {
    assert n - t * n == (1.0 - t) * n;
    if t > 0.0 {
      assert t * n > 0.0;
    }
    if t < 1.0 {
      assert (1.0 - t) * n > 0.0;
    }
  }

  /** Flooring keeps a real in [0, n) inside [0, n), a non-positive real
      non-positive, and a real of at least n at least n. */
  lemma FloorBounds(s: real, n: int)
    ensures 0.0 <= s < n as real ==> 0 <= s.Floor < n
    ensures s <= 0.0 ==> s.Floor <= 0
    ensures s >= n as real ==> s.Floor >= n
  {
    assert s.Floor as real <= s < s.Floor as real + 1.0;
  }

  /** A point on the plane maps to a column inside the image, so clamping
      leaves it unchanged. */
  lemma OnPlaneNeedsNoClamp(coord: real, planeSize: real, cells: nat)
    requires planeSize > 0.0 && cells >= 1
    requires -planeSize / 2.0 <= coord < planeSize / 2.0
    ensures 0 <= ImageCoord(coord, planeSize, cells) < cells
    ensures ClampIndex(ImageCoord(coord, planeSize, cells), cells) == ImageCoord(coord, planeSize, cells)
  {
    var t := (coord + planeSize / 2.0) / planeSize;
    RatioBounds(coord + planeSize / 2.0, planeSize);
    ScaleBounds(t, cells as real);
    FloorBounds(t * cells as real, cells);
  }

  /** A point west of (or at) the western edge reads column 0, and one at
      or beyond the eastern edge reads the last column. */
  lemma OffPlaneClampsToEdge(coord: real, planeSize: real, cells: nat)
    requires planeSize > 0.0 && cells >= 1
    ensures coord <= -planeSize / 2.0 ==> ClampIndex(ImageCoord(coord, planeSize, cells), cells) == 0
    ensures coord >= planeSize / 2.0 ==> ClampIndex(ImageCoord(coord, planeSize, cells), cells) == cells - 1
  {
    var t := (coord + planeSize / 2.0) / planeSize;
    RatioBounds(coord + planeSize / 2.0, planeSize);
    ScaleBounds(t, cells as real);
    FloorBounds(t * cells as real, cells);
  }

  /** When the grid is non-empty and the height data has one value per
      cell, each in [0, 1], the height read for any image coordinates is
      defined and lies in [0, maxHeight]. */
  lemma HeightAtCellBounded(imgX: int, imgZ: int, heightData: seq<real>, width: nat, height: nat,
                            maxHeight: real)
    requires maxHeight >= 0.0
    requires width >= 1 && height >= 1 && |heightData| == width * height
    requires forall i :: 0 <= i < |heightData| ==> 0.0 <= heightData[i] <= 1.0
    ensures HeightAtCell(imgX, imgZ, heightData, width, height, maxHeight).Some?
    ensures 0.0 <= HeightAtCell(imgX, imgZ, heightData, width, height, maxHeight).value <= maxHeight
  {
    var v := heightData[LookupIndex(imgX, imgZ, width, height)];
    assert 0.0 <= v <= 1.0;
  }

  /** The same bound for every world point, on the plane or off it. */
  lemma GetHeightAtBounded(x: real, z: real, heightData: seq<real>, width: nat, height: nat,
                           planeSize: real, maxHeight: real)
    requires planeSize != 0.0 && maxHeight >= 0.0
    requires width >= 1 && height >= 1 && |heightData| == width * height
    requires forall i :: 0 <= i < |heightData| ==> 0.0 <= heightData[i] <= 1.0
    ensures GetHeightAt(x, z, heightData, width, height, planeSize, maxHeight).Some?
    ensures 0.0 <= GetHeightAt(x, z, heightData, width, height, planeSize, maxHeight).value <= maxHeight
  {
    HeightAtCellBounded(ImageCoord(x, planeSize, width), ImageCoord(z, planeSize, height),
                        heightData, width, height, maxHeight);
  }

  /** Inside the image, the height read at image coordinates (imgX, imgZ)
      from the height data of `pixels` is the brightness of that pixel
      times maxHeight. */
  lemma HeightAtCellReadsPixel(pixels: seq<Byte>, width: nat, height: nat, imgX: nat, imgZ: nat,
                               maxHeight: real)
    requires |pixels| == BytesPerPixel * (width * height)
    requires imgX < width && imgZ < height
    ensures HeightAtCell(imgX, imgZ, HeightData(pixels, width, height), width, height, maxHeight)
         == Some(ScaleHeight(PixelBrightness(pixels, width, height, imgX, imgZ), maxHeight))
  {
    HeightDataRowMajor(pixels, width, height, imgX, imgZ);
    HeightAtCellInside(imgX, imgZ, HeightData(pixels, width, height), width, height, maxHeight);
  }

  /** Image coordinates inside the image are read as they are: the
      height is the value stored at their row-major index times maxHeight. */
  lemma HeightAtCellInside(imgX: int, imgZ: int, heightData: seq<real>, width: nat, height: nat,
                           maxHeight: real)
    requires 0 <= imgX < width && 0 <= imgZ < height && |heightData| == width * height
    ensures PixelIndex(width, imgX, imgZ) < |heightData|
    ensures HeightAtCell(imgX, imgZ, heightData, width, height, maxHeight)
         == Some(ScaleHeight(heightData[PixelIndex(width, imgX, imgZ)], maxHeight))
  {
    GridIndexInBounds(width, height, imgX, imgZ);
    assert LookupIndex(imgX, imgZ, width, height) == PixelIndex(width, imgX, imgZ);
  }

  /** On the terrain plane no clamping happens: the height at (x, z) is
      the value stored for the image cell under that point, times
      maxHeight. */
  lemma GetHeightAtOnPlane(x: real, z: real, heightData: seq<real>, width: nat, height: nat,
                           planeSize: real, maxHeight: real)
    requires width >= 1 && height >= 1 && |heightData| == width * height && planeSize > 0.0
    requires -planeSize / 2.0 <= x < planeSize / 2.0 && -planeSize / 2.0 <= z < planeSize / 2.0
    ensures 0 <= ImageCoord(x, planeSize, width) < width
    ensures 0 <= ImageCoord(z, planeSize, height) < height
    ensures PixelIndex(width, ImageCoord(x, planeSize, width), ImageCoord(z, planeSize, height)) < |heightData|
    ensures GetHeightAt(x, z, heightData, width, height, planeSize, maxHeight)
         == Some(ScaleHeight(heightData[PixelIndex(width, ImageCoord(x, planeSize, width),
                                                   ImageCoord(z, planeSize, height))], maxHeight))
  {
    OnPlaneNeedsNoClamp(x, planeSize, width);
    OnPlaneNeedsNoClamp(z, planeSize, height);
    HeightAtCellInside(ImageCoord(x, planeSize, width), ImageCoord(z, planeSize, height),
                       heightData, width, height, maxHeight);
  }

  /** A point beyond the western edge reads the first image column and one
      beyond the eastern edge the last, whatever its distance from the
      plane. */
  lemma GetHeightAtBeyondEdge(x: real, z: real, heightData: seq<real>, width: nat, height: nat,
                              planeSize: real, maxHeight: real)
    requires width >= 1 && height >= 1 && planeSize > 0.0
    ensures x <= -planeSize / 2.0 ==>
              GetHeightAt(x, z, heightData, width, height, planeSize, maxHeight)
              == HeightAtCell(0, ImageCoord(z, planeSize, height), heightData, width, height, maxHeight)
    ensures x >= planeSize / 2.0 ==>
              GetHeightAt(x, z, heightData, width, height, planeSize, maxHeight)
              == HeightAtCell(width - 1, ImageCoord(z, planeSize, height), heightData, width, height, maxHeight)
  {
    OffPlaneClampsToEdge(x, planeSize, width);
    var imgX, imgZ := ImageCoord(x, planeSize, width), ImageCoord(z, planeSize, height);
    if x <= -planeSize / 2.0 {
      assert LookupIndex(imgX, imgZ, width, height) == LookupIndex(0, imgZ, width, height);
    }
    if x >= planeSize / 2.0 {
      assert LookupIndex(imgX, imgZ, width, height) == LookupIndex(width - 1, imgZ, width, height);
    }
  }

  /** End to end: on the terrain plane, the height at (x, z) over the
      height data of an image is the brightness of the image pixel under
      that point times maxHeight. */
  lemma TerrainHeightIsPixelBrightness(pixels: seq<Byte>, width: nat, height: nat,
                                       x: real, z: real, planeSize: real, maxHeight: real)
    requires |pixels| == BytesPerPixel * (width * height)
    requires width >= 1 && height >= 1 && planeSize > 0.0
    requires -planeSize / 2.0 <= x < planeSize / 2.0 && -planeSize / 2.0 <= z < planeSize / 2.0
    ensures 0 <= ImageCoord(x, planeSize, width) < width
    ensures 0 <= ImageCoord(z, planeSize, height) < height
    ensures GetHeightAt(x, z, HeightData(pixels, width, height), width, height, planeSize, maxHeight)
         == Some(ScaleHeight(PixelBrightness(pixels, width, height, ImageCoord(x, planeSize, width),
                                             ImageCoord(z, planeSize, height)), maxHeight))
  {
    GetHeightAtOnPlane(x, z, HeightData(pixels, width, height), width, height, planeSize, maxHeight);
    HeightDataRowMajor(pixels, width, height, ImageCoord(x, planeSize, width), ImageCoord(z, planeSize, height));
  }
}
