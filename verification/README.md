# BinaryImage: a verified model of a bit-packed binary raster

This project models `BinaryImage`, a `width` by `height` black-and-white
raster that packs 32 pixels into each word of an `Int32Array`. Row `y`
takes `stride = ceil(width / 32)` words. Pixel (x, y) is bit `x & 31` of
word `y * stride + (x >> 5)`. The model covers:

- the constructor and `stride`;
- single-pixel `get` and `set`;
- the word-wise set operations `sub` (`a & ~b`) and `add` (`a | b`);
- the morphological `dilate` and `erode`, which stamp a disk of a given
  radius around every edge pixel of the interior;
- conversion from a canvas `ImageData` (`fromImageData`, which classifies
  each RGBA pixel with a test function) and back (`toImageData`, which
  paints each pixel with one of two colours).

Everything is modelled as immutable values. An `Image` is its width,
height and sequence of `bv32` words. A method that mutates `this` in the
source returns the new image here. `BinaryImage.View` maps the words to a
`Raster.Grid` of booleans, and every operation is specified against that
grid:

- `sub` and `add` are cell-wise "and not" and "or";
- `dilate` and `erode` are `Morphology.Spread` with the value 1 or 0;
- `fromImageData` is `Canvas.Classify`.

Modules, one per file:

- `Words` (words.dfy): bits of a 32-bit word and the masks `1 << k`. A
  bit is read as `(w >> k) & 1`, as in the source.
- `Raster` (raster.dfy): the pictured grid, cell-wise operations,
  extensionality and the row-by-row scan order.
- `BinaryImage` (binary_image.dfy): the packed image, `get`, `set`,
  `sub` and `add`.
- `Morphology` (morphology.dfy): `dilate`, `erode`, the disk stamp, the
  edge test, and the facts about radius and duality.
- `Canvas` (image_data.dfy): the RGBA buffer, `fromImageData` and
  `toImageData`.

## Model

| member | source | states |
|---|---|---|
| `BinaryImage.Stride` | src/BinaryImage.ts:7 | the stride is the least word count covering the width: `width <= 32 * s`, and `s - 1` words would not cover it |
| `BinaryImage.New` | src/BinaryImage.ts:9-11 | a new image has `stride * height` words, all zero, and every pixel reads 0 |
| `BinaryImage.NewIsBlank` | src/BinaryImage.ts:10 | an image whose words are all zero reads 0 at every pixel |
| `BinaryImage.Get` | src/BinaryImage.ts:13-16 | `get` reads a word that exists: `y * stride + (x >> 5)` lies inside the array for every in-range pixel |
| `BinaryImage.GetReadsWord` | src/BinaryImage.ts:13-18 | `get(x, y)` is `(cell >> xbit) & 1` of `cell = data[y * stride + xcell]`, with `xcell = x >> 5` and the shift `xbit = x % 32` |
| `BinaryImage.IndexInRange` | src/BinaryImage.ts:14-16 | the word `y * stride + (x >> 5)` of every in-range pixel lies inside the array |
| `BinaryImage.IndexSeparates` | src/BinaryImage.ts:14-16 | two different in-range pixels differ in their word or in their bit |
| `Words.MaskBit` | src/BinaryImage.ts:24 | the mask `1 << k` has bit `k` set and no other bit |
| `Words.SetBit` | src/BinaryImage.ts:24 | or-ing in `1 << k` sets bit `k` and keeps every other bit |
| `Words.ClearBit` | src/BinaryImage.ts:26 | and-ing with `~(1 << k)` clears bit `k` and keeps every other bit |
| `Words.OrBit` | src/BinaryImage.ts:38 | bit `k` of `a \| b` is set exactly when it is set in `a` or in `b` |
| `Words.AndNotBit` | src/BinaryImage.ts:32 | bit `k` of `a & ~b` is set exactly when it is set in `a` and clear in `b` |
| `Words.ZeroBit` | src/BinaryImage.ts:10 | the zero word has no bit set |
| `BinaryImage.SetWordBit` | src/BinaryImage.ts:23-27 | the written word holds `value` at bit `k` and the old bit everywhere else |
| `BinaryImage.SetWordPixels` | src/BinaryImage.ts:20-28 | after the one-word update, pixel (x, y) reads `value` and every other pixel, including the others in the same word, reads as before |
| `BinaryImage.Set` | src/BinaryImage.ts:20-28 | `get` returns the written value at (x, y) and the old value at every other in-range pixel |
| `BinaryImage.SetView` | src/BinaryImage.ts:13-28 | the picture after `set` is the old picture with exactly cell (x, y) replaced |
| `BinaryImage.SetGet` | src/BinaryImage.ts:13-28 | writing back the value `get` returned leaves the picture unchanged |
| `BinaryImage.SetSet` | src/BinaryImage.ts:20-28 | of two writes to one pixel only the second one is visible |
| `BinaryImage.AndNotPixel` | src/BinaryImage.ts:32 | a pixel of the combined word `a & ~b` is set exactly when it is set in `a` and not in `b` |
| `BinaryImage.OrPixel` | src/BinaryImage.ts:38 | a pixel of the combined word `a \| b` is set exactly when it is set in `a` or in `b` |
| `BinaryImage.WordwiseAndNot` | src/BinaryImage.ts:30-34 | combining every word with `a & ~b` pictures the cell-wise difference of the two pictures |
| `BinaryImage.WordwiseOr` | src/BinaryImage.ts:36-40 | combining every word with `a \| b` pictures the cell-wise union of the two pictures |
| `BinaryImage.Sub` | src/BinaryImage.ts:30-34 | the result pictures "set in `a` and not set in `b`" cell by cell, so it lies within `a` |
| `BinaryImage.Add` | src/BinaryImage.ts:36-40 | the result pictures "set in `a` or in `b`" cell by cell, so every pixel set before stays set |
| `Morphology.DiskIsCircle` | src/BinaryImage.ts:52-54 | for a radius of zero or more, the loop ranges never cut the disk short: the stamp is exactly the offsets with `dx*dx + dy*dy < radius*radius` |
| `Morphology.UnitDisk` | src/BinaryImage.ts:52-54 | with radius 1 or less the stamp holds at most the centre offset (0, 0) |
| `Morphology.DiskGrows` | src/BinaryImage.ts:52-54 | the stamp of a radius lies inside the stamp of every larger radius |
| `Morphology.Stamp` | src/BinaryImage.ts:52-62 | after the two stamping loops, every in-range pixel at a disk offset from the centre reads `value` and every other pixel reads as before |
| `Morphology.EdgeAt` | src/BinaryImage.ts:50 | the edge test read off the words (the dilate form when `b` is set, the erode form of line 76 otherwise) is exactly `IsEdge` of the picture |
| `Morphology.Morph` | src/BinaryImage.ts:42-66 | copying `src` and stamping around each interior edge in scan order yields `Spread`: pixels in the disk of an edge take `b`, all others keep their value |
| `Morphology.SpreadCovers` | src/BinaryImage.ts:51-59 | every in-bounds pixel in the disk of an edge takes the stamped value |
| `Morphology.Dilate` | src/BinaryImage.ts:42-66 | every in-bounds pixel within the disk of an interior set pixel (1 ≤ x ≤ width - 2, 1 ≤ y ≤ height - 2) that has an unset 4-neighbour is set; a pixel on the one-pixel frame is never a centre; every pixel outside all such disks is copied; the result contains `src`; with radius 1 or less it equals `src` |
| `Morphology.Erode` | src/BinaryImage.ts:68-92 | every in-bounds pixel within the disk of an interior unset pixel (1 ≤ x ≤ width - 2, 1 ≤ y ≤ height - 2) that has a set 4-neighbour is cleared; a pixel on the one-pixel frame is never a centre; every pixel outside all such disks is copied; the result lies within `src`; with radius 1 or less it equals `src` |
| `Morphology.SmallRadiusKeeps` | src/BinaryImage.ts:42-92 | with radius 1 or less, `dilate` and `erode` leave the picture unchanged |
| `Morphology.ReachGrows` | src/BinaryImage.ts:52-54 | a pixel reached from an edge with one radius is reached with every larger radius |
| `Morphology.DilateGrows` | src/BinaryImage.ts:42-66 | dilating with a larger radius gives a superset |
| `Morphology.ErodeShrinks` | src/BinaryImage.ts:68-92 | eroding with a larger radius gives a subset |
| `Morphology.EdgeDual` | src/BinaryImage.ts:76 | an erode edge of a picture is a dilate edge (line 50) of the inverted picture, and conversely |
| `Morphology.ErodeIsDualOfDilate` | src/BinaryImage.ts:68-92 | eroding a picture is dilating its inverse with the same radius and inverting the result (lines 42-66 are the dilate side) |
| `Canvas.OffsetInRange` | src/BinaryImage.ts:98 | the four bytes at `(y * width + x) * 4` of an in-bounds pixel lie inside the `4 * width * height` byte buffer |
| `Canvas.Rgba` | src/BinaryImage.ts:98-99 | a pixel's colour is four bytes taken from the buffer at `(y * width + x) * 4`, a run that lies inside the buffer |
| `Canvas.RgbaBytes` | src/BinaryImage.ts:98-99 | byte `k` of the colour (red, green, blue, alpha for `k` = 0 to 3) is byte `offset + k` of the buffer |
| `Canvas.OffsetsApart` | src/BinaryImage.ts:110 | two different pixels own disjoint four-byte runs |
| `Canvas.RgbaDetermines` | src/BinaryImage.ts:108-114 | a buffer is determined by the colours of its pixels, so painting every pixel overwrites every byte of `out` |
| `Canvas.Blank` | src/BinaryImage.ts:107 | `new ImageData(width, height)` has the given size and every byte zero; both sizes must be positive, because the constructor throws on a zero size |
| `Canvas.Paint` | src/BinaryImage.ts:112 | `image.data.set(rgba, offset)` gives pixel (x, y) the colour `rgba` and keeps the colour of every other pixel |
| `Canvas.FromImageData` | src/BinaryImage.ts:94-104 | the new image has the buffer's size, and pixel (x, y) reads `test` of the four bytes of that pixel |
| `Canvas.ToImageData` | src/BinaryImage.ts:106-116 | the result has `out`'s size, or the image's when `out` is absent (that case needs a non-empty image, because `new ImageData` throws on a zero size), and every pixel's four bytes are `color1` where the image is set and `color0` where it is clear |
| `Canvas.RenderThenClassify` | src/BinaryImage.ts:94-116 | classifying a buffer rendered from an image, with a test that gives 1 for `color1` and 0 for `color0`, gives back the image's picture |

## Left out

- `floodFillWithGap` and the rest of src/FloodFill.ts are not part of this model.
- example/index.ts is not modelled. It is a browser demo that wires the class to a canvas and user input.
- Mutation and aliasing are not modelled. Each operation returns a new image instead of writing `this`. In particular, `dst.dilate(dst, r)` is not modelled: there, the source's reads of `src` would see pixels it has already stamped.
- The constructor's optional `data` argument is left out. `New` always allocates a zero-filled array.
- JavaScript number semantics outside non-negative integer coordinates are left out: fractional, negative or out-of-range `x` and `y`, and values from 2^31 on, where `x >> 5` wraps. `get` and `set` require an in-range pixel. For such pixels `x >> 5` is `x / 32` and `x - (xcell << 5)` is `x % 32`.
- Images of different shapes are left out; the model requires equal shapes. In the source:
  - `sub` with a shorter `other` reads `undefined`, and `~undefined` is -1, so the words past `other`'s end are kept.
  - `add` with a longer `other` writes past `this`'s end, which a typed array ignores. With a shorter `other`, the words past its end are kept.
  - `dilate` or `erode` into a smaller `this`: `this.data.set(src.data)` (lines 43 and 69) throws a `RangeError`.
  - `dilate` or `erode` into a larger `this`: `src`'s words are copied as a prefix and the rest of `this` is kept. The stamping `set` calls (lines 58 and 84) then index with `this`'s stride, while every read goes to `src` and stays in range.
- `radius` is an integer. A fractional radius is left out.
- The `test` callback of `fromImageData` is a pure function of the four bytes. Its side effects, and its results other than 0 and 1, are left out.
- Canvas.ToImageData: colours are required to be exactly four bytes. The source would copy a longer colour over the next pixel's bytes, or throw at the end of the buffer, and a shorter one would leave bytes unwritten.
- Canvas.Blank: the `IndexSizeError` that `new ImageData` throws for a zero width or height is not modelled. Both sizes are required to be positive.
- Canvas.ToImageData: without `out`, the image must be non-empty, for the same reason. The source throws on an empty image.
- Canvas.ToImageData: `out` must be no larger than the image. With a larger `out`, the source's `get` reads past the image's rows or words.
- The padding bits past `width` in the last word of a row are not constrained. `sub` and `add` combine whole words, padding included, and `dilate` and `erode` copy them with `src`'s words. `set` never writes them, and no pixel read depends on them: every contract is stated on in-range pixels or on `View`.
- Performance (word-at-a-time copying, `Int32Array.set`) is not modelled. Only the resulting values are.
