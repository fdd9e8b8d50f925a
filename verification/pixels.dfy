/**
  The in-memory image representations shared by the pixel engine.

  - An `Image` is a packed, row-major buffer of 32-bit pixels: four bytes per
    pixel, no row padding, pixel (x, y) starting at byte `Offset(width, x, y)`.
  - A `Grid` is the jagged `[x, y][channel]` form used by the edge detector:
    `width` columns of `height` cells, each cell a 4-byte channel group.
 */
module Pixels {

  /** An unsigned 8-bit value. */
  type byte = b: int | 0 <= b < 256

  /** Every pixel occupies four consecutive bytes: three colour channels, then alpha. */
  const BytesPerPixel: nat := 4

  /** The alpha channel's position within a pixel. */
  const Alpha: nat := 3

  /** One pixel's channel group, as stored in a grid cell. */
  type Cell = c: seq<byte> | |c| == BytesPerPixel witness [0, 0, 0, 0]

  /** The cell every freshly allocated grid starts with. */
  const Blank: Cell := [0, 0, 0, 0]

  datatype Image = Image(width: nat, height: nat, data: seq<byte>)

  /** The buffer holds exactly `width * height` whole pixels. */
  predicate ValidImage(img: Image) {
    |img.data| == img.width * img.height * BytesPerPixel
  }

  datatype Grid = Grid(width: nat, height: nat, cells: seq<seq<Cell>>)

  /** The jagged array is `width` by `height`, as `GetLength(0)` and `GetLength(1)` report. */
  predicate ValidGrid(g: Grid) {
    && |g.cells| == g.width
    && forall x | 0 <= x < g.width :: |g.cells[x]| == g.height
  }

  /** Channel `i` of the `k`-th pixel of a packed buffer, counting pixels in buffer order. */
  function Channel(data: seq<byte>, k: nat, i: nat): byte
    requires BytesPerPixel * k + i < |data|
  {
    data[BytesPerPixel * k + i]
  }

  /** Two packed buffers of whole pixels are equal when every channel of every pixel is. */
  lemma ChannelsDetermine(a: seq<byte>, b: seq<byte>)
    requires |a| == |b| && |a| % BytesPerPixel == 0
    requires forall k, i | 0 <= i < BytesPerPixel && BytesPerPixel * k + i < |a| :: Channel(a, k, i) == Channel(b, k, i)
    ensures a == b
  {
    forall j | 0 <= j < |a|
      ensures a[j] == b[j]
    {
      var k, i := j / BytesPerPixel, j % BytesPerPixel;
      assert j == BytesPerPixel * k + i;
      assert Channel(a, k, i) == Channel(b, k, i);
    }
  }

  /** In a buffer of whole pixels, a channel that lies inside the buffer belongs to a pixel that does. */
  lemma WholePixel(n: nat, k: nat, i: nat)
    requires n % BytesPerPixel == 0 && i < BytesPerPixel && BytesPerPixel * k + i < n
    ensures BytesPerPixel * k + BytesPerPixel <= n
  {
    var m := n / BytesPerPixel;
    assert n == BytesPerPixel * m;
  }

  /**
    Byte offset of the first pixel of row `y` in a packed buffer whose rows
    are `width` pixels long: the pointer walk passes `y` whole rows first.
   */
  function RowStart(width: nat, y: nat): nat {
    if y == 0 then 0 else RowStart(width, y - 1) + width * BytesPerPixel
  }

  /** Byte offset of pixel (x, y) in a packed buffer whose rows are `width` pixels long. */
  function Offset(width: nat, x: nat, y: nat): nat {
    RowStart(width, y) + x * BytesPerPixel
  }

  /** Byte index of channel `i` of pixel (x, y) in such a buffer. */
  function ByteIndex(width: nat, x: nat, y: nat, i: nat): nat {
    Offset(width, x, y) + i
  }

  /** The row start is the product the packed layout promises. */
  lemma {:induction false} RowStartIsProduct(width: nat, y: nat)
    ensures RowStart(width, y) == y * width * BytesPerPixel
  {
    if y > 0 {
      RowStartIsProduct(width, y - 1);
      assert y * width == (y - 1) * width + width;
    }
  }

  /** Later rows start later: row `y` ends before row `z` starts when y < z. */
  lemma {:induction false} RowStartMonotone(width: nat, y: nat, z: nat)
    requires y < z
    ensures RowStart(width, y) + width * BytesPerPixel <= RowStart(width, z)
    decreases z
  {
    if y + 1 < z {
      RowStartMonotone(width, y, z - 1);
    }
  }

  /**
    Every byte `j` of a packed buffer belongs to exactly the pixel and channel
    the pointer walk reaches it at: pixel number `j / 4` in buffer order, that
    is column `(j / 4) % width` of row `(j / 4) / width`, channel `j % 4`.
   */
  lemma PixelOfByte(width: nat, height: nat, j: nat)
    requires j < width * height * BytesPerPixel
    ensures var k := j / BytesPerPixel;
      && width > 0 && k / width < height
      && Offset(width, k % width, k / width) + j % BytesPerPixel == j
  {
    var k, i := j / BytesPerPixel, j % BytesPerPixel;
    assert j == BytesPerPixel * k + i;
    assert width * height > 0;
    assert width > 0;
    assert k < width * height;
    var x, y := k % width, k / width;
    assert k == width * y + x;
    assert width * y < width * height;
    assert y < height;
    RowStartIsProduct(width, y);
    assert y * width * BytesPerPixel + x * BytesPerPixel + i == BytesPerPixel * (width * y + x) + i;
  }

  /** Pixel (x, y) of a `width` by `height` image lies wholly inside the buffer. */
  lemma OffsetInRange(width: nat, height: nat, x: nat, y: nat)
    requires x < width && y < height
    ensures Offset(width, x, y) + BytesPerPixel <= RowStart(width, height) == width * height * BytesPerPixel
  {
    RowStartMonotone(width, y, height);
    RowStartIsProduct(width, height);
  }
}
