# Image processor core in Dafny

A Dafny model of the core of a small batch image tool. It has two parts:

- **Image processing** (`ImageProcessor.cs`):
  - the in-place greyscale sweep over a locked 32-bit bitmap buffer;
  - the conversions between a packed BGRA buffer and a `[x, y][BGRA]` jagged grid;
  - the Sobel edge detector over that grid;
  - the edge filter that chains them.
- **Input file filtering** (`FileManager.cs`): a file is kept when its extension contains one of the valid extensions.

The modules follow the source's structure:

| module | file | what it holds |
|---|---|---|
| `Pixels` | `pixels.dfy` | bytes, the packed `Image` (width, height, bytes), the jagged `Grid` (`cells[x][y]` is a four-byte cell), and the packed layout: pixel (x, y) starts at byte `(y * width + x) * 4` |
| `GridConversion` | `grid.dfy` | buffer to grid and grid to buffer, and both round trips |
| `Greyscale` | `greyscale.dfy` | the greyscale sweep as written, its closed form, and the corrected transform (see Findings) |
| `Sobel` | `sobel.dfy` | the kernels, the gradients, the threshold, the rounded and clamped magnitude, and the edge grid |
| `SobelFilter` | `sobelfilter.dfy` | the buffer-level edge filter |
| `FileFilter` | `filefilter.dfy` | ordinal substring search and the extension filter |

Modelling decisions:

- A 32bpp bitmap's rows are `width * 4` bytes, so the stride equals the packed row length. The model's buffer is therefore exactly `width * height * 4` bytes.
- The detector works in doubles. The model computes the same quantities exactly, on integers scaled by 3:
  - a cell's intensity is `b + g + r`, three times the source's `avgClr`;
  - the threshold test `c < threshold` becomes `3c < 3 * threshold`;
  - the output byte is the square root of the sum of squares, divided by 3, clamped to 255 and rounded to the nearest integer.
- `Convert.ToByte(double)` rounds to nearest, with ties to even. The model pins the result with a square-root-free characterisation, `Sobel.IsRoundedMagnitude`. A tie cannot occur, because it would need four times an integer to equal an odd square.
- The kernels are indexed `[iX + 1, iY + 1]`, so the first index selects the column offset. As a result:
  - the "X" sum is the weighted below-minus-above difference (`Sobel.GradientX`);
  - the "Y" sum is the left-minus-right difference (`Sobel.GradientY`).
- `Path.GetExtension` is the function parameter `ext` of the file filter.

Three points where the code's evident intent and its behaviour are easy to confuse. The model follows the code in each:

- **Greyscale sweep.** The comment at ImageProcessor.cs:36 calls the computed value the pixel's monochrome (average) value. The older per-pixel `ConvertToGreyscale` (ImageProcessor.cs:264-285) writes each pixel's own average into all three colour channels and keeps alpha. The fast sweep does not: it gives (3, 10, 20, 255) for a first pixel (10, 20, 30, 255), and a second pass gives (1, 4, 11, 255). See `Greyscale.SweepNotIdempotent` and Findings.
- **Magnitude conversion.** `Convert.ToByte(double)` at ImageProcessor.cs:203 rounds to nearest; it does not truncate.
- **Lone bright pixel.** With threshold 0, only two of a lone bright pixel's four direct neighbours light up: the one above and the one to the right. The other two see negative components, which the threshold discards; see `Sobel.SpotEdges`. Three diagonal neighbours light up too:
  - above-left and below-right become v;
  - above-right becomes min(round(v·√2), 255);
  - below-left, with two negative components, stays 0.

  See `Sobel.SpotDiagonals`.

## Model

| member | source | states |
|---|---|---|
| Pixels.RowStartIsProduct | ImageProcessor.cs:84-95 | the pointer that advances four bytes per pixel, row after row, reaches row y at byte `y * width * 4` |
| Pixels.OffsetInRange | ImageProcessor.cs:84-95 | every pixel (x, y) of a width-by-height image lies wholly inside its `width * height * 4`-byte buffer |
| GridConversion.BufferToGrid | ImageProcessor.cs:62-102 | the grid is width by height, and cell (x, y) holds the four bytes at pixel (x, y)'s offset, channel for channel |
| GridConversion.GridToBuffer | ImageProcessor.cs:107-139 | the new bitmap has the grid's dimensions, and the bytes at pixel (x, y)'s offset are cell (x, y)'s four bytes |
| GridConversion.GridRoundTrip | ImageProcessor.cs:62-139 | converting a grid to a bitmap and back gives the same grid |
| GridConversion.BufferRoundTrip | ImageProcessor.cs:62-139 | converting a bitmap to a grid and back gives the same bytes |
| Greyscale.ConvertToGreyscaleFast | ImageProcessor.cs:14-44 | the row and pixel loops, with one scratch array for the whole image, leave the buffer equal to the pixel-by-pixel fold `Sweep` started from a zeroed scratch array; dimensions are unchanged |
| Greyscale.Avg3 | ImageProcessor.cs:36 | the integer average of three bytes is their floor average |
| Greyscale.SweepChannels | ImageProcessor.cs:28-38 | every output channel of every pixel equals the closed form: the average over the scratch array as it stands when that channel is written |
| Greyscale.SweepPixelRule | ImageProcessor.cs:28-38 | pixel k becomes ((c0+q1+q2)/3, (c0+c1+q2)/3, (c0+c1+c2)/3, alpha), where q1 and q2 are the previous pixel's original channels 1 and 2, or 0 for the first pixel |
| Greyscale.SweepKeepsAlpha | ImageProcessor.cs:32-38 | the channel loop stops before index 3, so every alpha byte and the buffer length are unchanged |
| Greyscale.SweepUniform | ImageProcessor.cs:28-38 | in a buffer of one colour, every pixel after the first gets the true average in all three channels |
| Greyscale.SweepNotIdempotent | ImageProcessor.cs:28-38 | the sweep as written maps (10, 20, 30, a) to (3, 10, 20, a), and a second pass gives (1, 4, 11, a), which differs |
| Greyscale.CleanSweepChannels | ImageProcessor.cs:35-37 | the corrected transform writes each pixel's own floor average into its three colour channels and keeps alpha |
| Greyscale.CleanSweepExample | ImageProcessor.cs:35-37 | the corrected transform maps (10, 20, 30, 255) to (20, 20, 20, 255) |
| Greyscale.CleanSweepIdempotent | ImageProcessor.cs:35-37 | applying the corrected transform twice is the same as applying it once |
| Greyscale.SweepMatchesClean | ImageProcessor.cs:28-38 | the sweep as written agrees with the corrected transform on channel 2 and alpha everywhere, and on every channel but the first pixel's when the buffer has one colour |
| Sobel.KernelSumsAreGradients | ImageProcessor.cs:151-194 | the nine-tap sums with the kernels indexed `[iX + 1, iY + 1]` equal the weighted below-minus-above (X) and left-minus-right (Y) intensity differences |
| Sobel.Discard | ImageProcessor.cs:196-197 | a component below the threshold becomes 0 and any other is unchanged; with a non-negative threshold the result is never negative |
| Sobel.RoundedMagnitudeUnique | ImageProcessor.cs:199-203 | each squared magnitude has exactly one clamped, rounded output byte |
| Sobel.RoundFrom | ImageProcessor.cs:199-203 | the search returns the clamped, rounded byte of a squared magnitude |
| Sobel.Magnitude | ImageProcessor.cs:199-203 | for the components scaled by 3, the byte is `sqrt(sx² + sy²) / 3`, clamped to 255 and rounded to nearest; two zero components give 0 |
| Sobel.MagnitudeMonotone | ImageProcessor.cs:199-203 | a larger squared magnitude never gives a smaller byte |
| Sobel.EdgeValue | ImageProcessor.cs:180-203 | an interior cell's byte is the rounded, clamped magnitude of its two gradients after the threshold |
| Sobel.EdgeCell | ImageProcessor.cs:165-205 | an interior cell gets that byte in all three colour channels and keeps its own alpha; a border cell stays all zero, as allocated |
| Sobel.SobelEdgeDetection | ImageProcessor.cs:144-242 | the output has the input's dimensions; the border is zero; the whole output is zero when width or height is below 3; interior cells are grey, with the input's alpha and the rounded clamped thresholded gradient magnitude |
| Sobel.UniformHasNoEdges | ImageProcessor.cs:176-205 | when every cell has the same intensity, every colour channel of the output is 0, whatever the threshold |
| Sobel.NegativeComponentsDiscarded | ImageProcessor.cs:196-197 | with a non-negative threshold a negative component is discarded, and a cell with two negative components is black |
| Sobel.LoneComponent | ImageProcessor.cs:199-203 | a lone component of 2v (unscaled) gives min(2v, 255) |
| Sobel.HalfComponent | ImageProcessor.cs:199-203 | a lone component of v (unscaled) gives v |
| Sobel.DiagonalMagnitude | ImageProcessor.cs:199-203 | two equal components of v (unscaled) give min(round(v·√2), 255), a byte from v to 2v |
| Sobel.SpotGradients | ImageProcessor.cs:182-194 | around a lone pixel of intensity v, the cells above, right, below and left see the gradients (2v, 0), (0, 2v), (−2v, 0) and (0, −2v) (unscaled) |
| Sobel.SpotEdges | ImageProcessor.cs:176-205 | with threshold 0 and a lone grey pixel v, the cells above and to the right become min(2v, 255) and the cells below and to the left stay 0 |
| Sobel.SpotDiagonalGradients | ImageProcessor.cs:182-194 | around a lone pixel of intensity v, the cells above-left, above-right, below-right and below-left see the gradients (v, −v), (v, v), (−v, v) and (−v, −v) (unscaled) |
| Sobel.SpotDiagonals | ImageProcessor.cs:176-205 | with threshold 0 and a lone grey pixel v, the cells above-left and below-right become v, the cell above-right becomes min(round(v·√2), 255), between v and 2v, and the cell below-left stays 0 |
| SobelFilter.SobelFilterBitmap | ImageProcessor.cs:247-254 | the filtered bitmap has the input's dimensions, and its grid is the edge grid of the input's grid; border pixels are all zero bytes; interior pixels have three equal colour bytes and the input's alpha |
| SobelFilter.FlatGreyFiltersToBlack | ImageProcessor.cs:247-254 | an image of uniform intensity filters to zero colour bytes everywhere |
| FileFilter.FilterBy | FileManager.cs:55-67 | the loop that appends each passing file returns exactly the reference list `Filtered`: the passing files, in input order |
| FileFilter.FilterFiles | FileManager.cs:51-73 | the filter returns `Filtered` under the source's test: a file passes when its extension contains some valid extension |
| FileFilter.AnyContains | FileManager.cs:57 | the test holds exactly when some valid extension is a substring of the extension |
| FileFilter.ContainsIsOccurrence | FileManager.cs:57 | the ordinal substring search succeeds exactly when the substring occurs at some position |
| FileFilter.FilteredMembers | FileManager.cs:55-67 | a file is in the result exactly when it is in the input and passes the test |
| FileFilter.KeptPositions | FileManager.cs:55-67 | the ascending input positions of the kept files, which list the result in order |
| FileFilter.FilteredIsSubsequence | FileManager.cs:55-67 | the result is a subsequence of the input, in input order, of passing files only |
| FileFilter.FilteredCounts | FileManager.cs:55-67 | every passing file occurs in the result exactly as often as in the input, and every other file not at all |
| FileFilter.FilteredLength | FileManager.cs:55-68 | the result's length is the number of input files that pass the test |
| FileFilter.NothingToKeep | FileManager.cs:55-57 | an empty file list or an empty list of valid extensions gives an empty result |
| FileFilter.FilterAppend | FileManager.cs:55-67 | filtering a concatenation is the concatenation of the filtered parts |
| FileFilter.FilterIdempotent | FileManager.cs:51-73 | filtering an already filtered list returns it unchanged |
| FileFilter.ContainsIsCaseSensitive | FileManager.cs:57 | the test is ordinal and case-sensitive: ".pngx" passes ".png", and ".PNG" does not |
| FileFilter.EmptyEntryKeepsAll | FileManager.cs:57 | an empty string among the valid extensions keeps every file |

## Left out

- GDI+ itself is not modelled: `Bitmap`, `LockBits`/`UnlockBits`, `Dispose`, and the locking modes. The locked buffer is the `Image` value. `JaggedByteArrayToBitmap` locks its fresh bitmap read-only but writes through the pointer; the model assumes those writes reach the bitmap.
- `SetPixelFormat` (ImageProcessor.cs:49-57) only redraws the bitmap onto itself. The model assumes the input is already a 32bpp buffer, which is what `LockBits` with `Format32bppArgb` hands over.
- `Parallel.For` in the detector is modelled as a per-cell function: `SobelEdgeDetection` builds the output grid as a comprehension of `EdgeCell`. Each row writes only its own cells and reads only the input, so the order of the rows does not matter.
- The detector's double arithmetic (`avgClr`, `Math.Pow`, `Math.Sqrt`) is modelled with exact integers. Rounding drift that could move a value across a threshold or a rounding boundary is not modelled.
- GridConversion.GridToBuffer: accepts a grid of width or height 0 and packs it into an empty buffer, whereas `new Bitmap` at ImageProcessor.cs:113 throws `ArgumentException` for a zero dimension. Every grid the program converts comes from a real bitmap, so the zero case does not arise there. `GridConversion.GridRoundTrip` is accordingly stated for all grids, including ones the source would reject.
- Sobel.SobelEdgeDetection: its contract pins each interior cell's byte through `IsRoundedMagnitude` rather than through a square root, because Dafny has no reals with square roots.
- The commented-out sequential copy of the detector (ImageProcessor.cs:208-240) and everything from line 256 on ("deprecate below this point") are not part of this model.
- The counters `byteArrayWithIndex` and `byteArrayWidthIndex` in the two conversions are left out. They are read only in the test that resets them (ImageProcessor.cs:90 and :129) and never index anything, so they do not affect the output.
- The `ref` parameter and the in-place mutation of `ConvertToGreyscaleFast` are modelled as a function from the old buffer to the new one.
- File listing, folder handling, `Program.cs` and `ConsoleOutput.cs` are not part of this model. The console messages of `FilterFiles` are left out as output only.
- Null inputs are not modelled: a null file list, null valid extensions, or a null extension. Dafny sequences and strings are never null.
- `Path.GetExtension` is the parameter `ext`; the model proves nothing about what it returns.

## Findings

| source | as written | input that shows it | evidently intended | confidence | as-written member | corrected member |
|---|---|---|---|---|---|---|
| ImageProcessor.cs:33-37 | the average is recomputed and written back after each channel is read, using the one scratch array. Channels 0 and 1 average in stale values carried from the previous pixel (zeros for the first pixel), and only channel 2 gets the pixel's own average | a single pixel (10, 20, 30, 255) becomes (3, 10, 20, 255), and a second pass gives (1, 4, 11, 255) | each pixel's three colour channels set to the floor average of its own channels: (20, 20, 20, 255), and idempotent | high, not executed | Greyscale.SweepNotIdempotent | Greyscale.CleanSweepIdempotent |
