# Terrain heightmap model

This project models the terrain heightmap of the night-scene exercise
(`js/main-script_C.js`). Two functions make up that logic:

- `getHeightData` turns the RGBA pixel buffer of the heightmap image into a
  row-major array of normalised brightness values. It allocates a
  `Float32Array` of `width * height` entries. It then walks the rows and, in
  each row, the columns. For every pixel it reads the red, green and blue
  bytes at offsets `(y * width + x) * 4`, `+ 1` and `+ 2`, averages them,
  divides by 255 and stores the result through a running counter `i`.
- `getHeightAt` maps a world point `(x, z)` on the square terrain plane,
  which is centred at the origin, to an image column and row with
  `floor((coord + planeSize / 2) / planeSize * cells)`. It clamps both into
  the grid, reads the value at `row * width + column` and scales it by
  `maxHeight`.

The Dafny module `Heightmap` (`heightmap.dfy`) follows the source's form.
`GetHeightData` is an imperative method with two nested loops and the
counter `i`, writing into a fresh array. It is proved against the pure
specification `HeightData`. `getHeightAt` is pure in the source and is
modelled by functions. `GetHeightAt` is split at the image coordinates:
`ImageCoord` models the world-to-image step and `HeightAtCell` models the
clamp, read and scale. The canvas work in `getHeightData` (creating a
canvas, drawing the image, `getImageData`) is replaced by the byte buffer
itself, given as a parameter. Its length is `4 * width * height`, which is
what `getImageData` returns for the drawn size.

`update` in this file and `checkCollisions`, `handleCollisions` and
`update` in `js/main-script.js` are empty functions, so there is no
animator, actuator, pose or collision code to model.

## Model

| member | source | states |
|---|---|---|
| Heightmap.GridIndexInBounds | js/main-script_C.js:285-296 | every cell `(x, y)` of a width-by-height grid has row-major index `y * width + x` below `width * height`, so every write of the nested loops lands inside the array |
| Heightmap.GridIndexInjective | js/main-script_C.js:287-296 | two cells with the same row-major index are the same cell, so no entry is written twice |
| Heightmap.GridIndexCovers | js/main-script_C.js:287-296 | every index below `width * height` is the index of the cell in column `i % width`, row `i / width`, so every entry is written |
| Heightmap.PixelBytesInBuffer | js/main-script_C.js:290-293 | with a stride of 4, all four bytes of every pixel lie inside the `4 * width * height` byte buffer, and consecutive pixels start 4 bytes apart |
| Heightmap.Brightness | js/main-script_C.js:294-295 | the mean of R, G and B divided by 255 lies in [0, 1]; it is 0 exactly for a black pixel and 1 exactly for a white one |
| Heightmap.BrightnessAt | js/main-script_C.js:290-295 | the brightness of pixel p, read from bytes `4p`, `4p + 1` and `4p + 2`, lies in [0, 1] and is 0 exactly when those three bytes are 0 |
| Heightmap.PixelBrightness | js/main-script_C.js:290-295 | the brightness of pixel (x, y) is the brightness of pixel number `y * width + x` of the flat buffer, whose bytes lie inside the buffer |
| Heightmap.HeightData | js/main-script_C.js:285-297 | the height data has exactly `width * height` entries and each lies in [0, 1] |
| Heightmap.HeightDataRowMajor | js/main-script_C.js:287-295 | the entry at `y * width + x` is the brightness of the bytes at `(y * width + x) * 4`, `+ 1` and `+ 2`; alpha is not read |
| Heightmap.GetHeightData | js/main-script_C.js:276-300 | the method returns a fresh array of `width * height` entries equal to `HeightData`, and the entry for column x of row y is the brightness of pixel (x, y); the loop invariant keeps the counter `i` equal to `y * width + x` |
| Heightmap.ImageCoord | js/main-script_C.js:303-306 | no contract of its own; its behaviour is stated by `PlaneEdgeMapsToZero`, `OnPlaneNeedsNoClamp` and `OffPlaneClampsToEdge` |
| Heightmap.ClampIndex | js/main-script_C.js:308-309 | `max(0, min(cells - 1, v))` is never negative, is at most `cells - 1` for a non-empty row, leaves an index already inside the row unchanged, and sends one below 0 to 0 and one past the end to `cells - 1` |
| Heightmap.LookupIndex | js/main-script_C.js:308-311 | for a grid of at least one row and one column, `clampedZ * width + clampedX` is below `width * height` for any image coordinates |
| Heightmap.ScaleHeight | js/main-script_C.js:314 | a value in [0, 1] scaled by a non-negative `maxHeight` lies in [0, maxHeight]; 0 stays 0 and 1 becomes `maxHeight` |
| Heightmap.HeightAtCell | js/main-script_C.js:308-314 | when the height data holds one value per cell of a non-empty grid, the lookup is always defined |
| Heightmap.GetHeightAt | js/main-script_C.js:302-315 | when the height data holds one value per cell of a non-empty grid, the height is defined at every world point, on the plane or off it |
| Heightmap.PlaneEdgeMapsToZero | js/main-script_C.js:303-305 | the world coordinate `-planeSize / 2` maps to image column 0 |
| Heightmap.OnPlaneNeedsNoClamp | js/main-script_C.js:303-309 | a point with `-planeSize / 2 <= coord < planeSize / 2` maps to a column in `[0, cells)`, which clamping leaves unchanged |
| Heightmap.OffPlaneClampsToEdge | js/main-script_C.js:305-309 | a coordinate at or beyond the western edge clamps to column 0, and one at or beyond the eastern edge clamps to column `cells - 1` |
| Heightmap.HeightAtCellBounded | js/main-script_C.js:311-314 | with values in [0, 1] and `maxHeight >= 0`, the height read at any image coordinates is defined and lies in [0, maxHeight] |
| Heightmap.GetHeightAtBounded | js/main-script_C.js:302-314 | the same bound, [0, maxHeight], holds at every world point |
| Heightmap.HeightAtCellInside | js/main-script_C.js:308-314 | image coordinates inside the grid are read unclamped: the result is the value at `row * width + column` times `maxHeight` |
| Heightmap.HeightAtCellReadsPixel | js/main-script_C.js:287-314 | over the height data of an image, the value read at an in-grid cell is the brightness of that image pixel times `maxHeight` |
| Heightmap.GetHeightAtOnPlane | js/main-script_C.js:303-314 | on the plane, the height at (x, z) is the value stored at the row-major index of the image cell under the point, times `maxHeight` |
| Heightmap.GetHeightAtBeyondEdge | js/main-script_C.js:303-314 | a point at or west of the western edge reads image column 0 and one at or east of the eastern edge reads the last column, whatever its distance |
| Heightmap.TerrainHeightIsPixelBrightness | js/main-script_C.js:302-314 | on the plane, the terrain height over the data built from an image is the brightness of the pixel under (x, z) times `maxHeight` |

## Left out

- Canvas and DOM work: creating the canvas, `drawImage` and `getImageData` in `getHeightData` (js/main-script_C.js:277-284). The pixel buffer is a parameter, and its length, `4 * width * height`, is a precondition. This is the size `getImageData` returns.
- GetHeightData: values are kept as exact reals. The source stores each value in a `Float32Array`, which rounds it to single precision. The [0, 1] bound and the index facts do not depend on that rounding.
- GetHeightAt: the world-to-image step uses exact real arithmetic and `Floor`. It does not model IEEE rounding of `(x + halfSize) / planeSize * heightmapWidth`, nor NaN or infinite inputs.
- GetHeightAt: requires `planeSize != 0`. In the source a zero plane size gives `halfSize = 0`. For a non-zero coordinate, `coord / 0` is plus or minus Infinity, which `Math.floor` keeps and the clamp turns into the last or the first column, so the source returns a finite edge or corner height. Only a coordinate of 0 gives `0 / 0`, which is NaN. The model leaves that case out; the only caller passes the constant `PLANE_WIDTH` (250).
- GetHeightAt: a read past the end of the height array is `None`. In the source it yields `undefined` and the product `NaN`. The model does not tell `NaN` from other results beyond that.
- The asynchronous image load that calls `getHeightData` (js/main-script_C.js:252-262) is I/O and is not modelled.
- `scatterTrees` and `randInt` draw from `Math.random` (js/main-script_C.js:173-175, 361-368) and are not modelled. The bound lemmas cover every point they could pass to `getHeightAt`.
- Scene construction, textures, lights, cameras and input handlers in both files call into the rendering library or the DOM. They are not modelled.
- The pose animator, arm actuator, pose detector and AABB collision test have no code in these files. `checkCollisions`, `handleCollisions` and `update` are empty. They are not modelled.
