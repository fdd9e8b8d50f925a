/**
  Conversions between the packed buffer and the jagged `[x, y][channel]`
  grid. Both walk the image row by row and, within a row, pixel by pixel,
  with a pointer that advances four bytes per pixel over a buffer without
  row padding. Neither carries any filtering logic.
 */
module GridConversion {
  import opened Pixels

  /** The four bytes of pixel (x, y) of a packed buffer, as one grid cell. */
  function PixelAt(img: Image, x: nat, y: nat): (c: Cell)
    requires ValidImage(img) && x < img.width && y < img.height
    ensures Offset(img.width, x, y) + BytesPerPixel <= |img.data|
    ensures forall i | 0 <= i < BytesPerPixel :: c[i] == img.data[ByteIndex(img.width, x, y, i)]
  {
    OffsetInRange(img.width, img.height, x, y);
    img.data[Offset(img.width, x, y)..Offset(img.width, x, y) + BytesPerPixel]
  }

  /**
    The grid of a packed buffer: `width` columns of `height` cells, the cell
    at (x, y) holding the four bytes the pointer walk finds at pixel (x, y).
   */
  function BufferToGrid(img: Image): (g: Grid)
    requires ValidImage(img)
    ensures ValidGrid(g) && g.width == img.width && g.height == img.height
    ensures forall x, y | 0 <= x < g.width && 0 <= y < g.height :: g.cells[x][y] == PixelAt(img, x, y)
    ensures forall x, y, i | 0 <= x < g.width && 0 <= y < g.height && 0 <= i < BytesPerPixel ::
              ByteIndex(img.width, x, y, i) < |img.data| && g.cells[x][y][i] == img.data[ByteIndex(img.width, x, y, i)]
  {
    var g := Grid(img.width, img.height,
                  seq(img.width, x requires 0 <= x < img.width =>
                    seq(img.height, y requires 0 <= y < img.height => PixelAt(img, x, y))));
    PixelsHoldBytes(img, g);
    g
  }

  /** A grid of the buffer's pixels holds each byte of the buffer in its cell. */
  lemma PixelsHoldBytes(img: Image, g: Grid)
    requires ValidImage(img) && ValidGrid(g) && g.width == img.width && g.height == img.height
    requires forall x, y | 0 <= x < g.width && 0 <= y < g.height :: g.cells[x][y] == PixelAt(img, x, y)
    ensures forall x, y, i | 0 <= x < g.width && 0 <= y < g.height && 0 <= i < BytesPerPixel ::
              ByteIndex(img.width, x, y, i) < |img.data| && g.cells[x][y][i] == img.data[ByteIndex(img.width, x, y, i)]
  {
    forall x, y, i | 0 <= x < g.width && 0 <= y < g.height && 0 <= i < BytesPerPixel
      ensures ByteIndex(img.width, x, y, i) < |img.data| && g.cells[x][y][i] == img.data[ByteIndex(img.width, x, y, i)]
    {
      var c := PixelAt(img, x, y);
      assert g.cells[x][y] == c;
    }
  }

  /** The bytes the pointer walk writes for the first `w` pixels of row `h`. */
  function RowPrefix(g: Grid, h: nat, w: nat): (r: seq<byte>)
    requires ValidGrid(g) && h < g.height && w <= g.width
    ensures |r| == w * BytesPerPixel
    ensures forall x, i | 0 <= x < w && 0 <= i < BytesPerPixel :: r[x * BytesPerPixel + i] == g.cells[x][h][i]
  {
    if w == 0 then [] else RowPrefix(g, h, w - 1) + g.cells[w - 1][h]
  }

  /** The bytes the pointer walk writes for the first `h` rows. */
  function RowsPrefix(g: Grid, h: nat): (r: seq<byte>)
    requires ValidGrid(g) && h <= g.height
    ensures |r| == RowStart(g.width, h)
    ensures forall x, y, i | 0 <= x < g.width && 0 <= y < h && 0 <= i < BytesPerPixel ::
              ByteIndex(g.width, x, y, i) < |r| && r[ByteIndex(g.width, x, y, i)] == g.cells[x][y][i]
  {
    if h == 0 then []
    else
      var prev, row := RowsPrefix(g, h - 1), RowPrefix(g, h - 1, g.width);
      AppendRow(g, h - 1, prev, row);
      prev + row
  }

  /** Appending row `y0` to the rows above it places each of its cells at its offset. */
  lemma AppendRow(g: Grid, y0: nat, prev: seq<byte>, row: seq<byte>)
    requires ValidGrid(g) && y0 < g.height
    requires |prev| == RowStart(g.width, y0)
    requires forall x, y, i | 0 <= x < g.width && 0 <= y < y0 && 0 <= i < BytesPerPixel ::
               ByteIndex(g.width, x, y, i) < |prev| && prev[ByteIndex(g.width, x, y, i)] == g.cells[x][y][i]
    requires |row| == g.width * BytesPerPixel
    requires forall x, i | 0 <= x < g.width && 0 <= i < BytesPerPixel :: row[x * BytesPerPixel + i] == g.cells[x][y0][i]
    ensures |prev + row| == RowStart(g.width, y0 + 1)
    ensures forall x, y, i | 0 <= x < g.width && 0 <= y <= y0 && 0 <= i < BytesPerPixel ::
              ByteIndex(g.width, x, y, i) < |prev + row| && (prev + row)[ByteIndex(g.width, x, y, i)] == g.cells[x][y][i]
  {
    var bytes := prev + row;
    forall x, y, i | 0 <= x < g.width && 0 <= y <= y0 && 0 <= i < BytesPerPixel
      ensures ByteIndex(g.width, x, y, i) < |bytes| && bytes[ByteIndex(g.width, x, y, i)] == g.cells[x][y][i]
    {
      if y < y0 {
        OffsetInRange(g.width, y0, x, y);
        assert bytes[ByteIndex(g.width, x, y, i)] == prev[ByteIndex(g.width, x, y, i)];
      } else {
        assert bytes[ByteIndex(g.width, x, y, i)] == row[x * BytesPerPixel + i];
      }
    }
  }

  /** The packed buffer of a grid; its dimensions are the grid's own. */
  function GridToBuffer(g: Grid): (img: Image)
    requires ValidGrid(g)
    ensures ValidImage(img) && img.width == g.width && img.height == g.height
    ensures forall x, y, i | 0 <= x < g.width && 0 <= y < g.height && 0 <= i < BytesPerPixel ::
              ByteIndex(g.width, x, y, i) < |img.data| && img.data[ByteIndex(g.width, x, y, i)] == g.cells[x][y][i]
  {
    var data := RowsPrefix(g, g.height);
    AllRowsPacked(g, data);
    Image(g.width, g.height, data)
  }

  /** All rows of a grid, packed, fill a buffer of the grid's size with every cell at its offset. */
  lemma AllRowsPacked(g: Grid, data: seq<byte>)
    requires ValidGrid(g) && data == RowsPrefix(g, g.height)
    ensures |data| == g.width * g.height * BytesPerPixel
    ensures forall x, y, i | 0 <= x < g.width && 0 <= y < g.height && 0 <= i < BytesPerPixel ::
              ByteIndex(g.width, x, y, i) < |data| && data[ByteIndex(g.width, x, y, i)] == g.cells[x][y][i]
  {
    RowStartIsProduct(g.width, g.height);
    assert g.height * g.width == g.width * g.height;
  }

  /** Rebuilding the grid from the buffer of a grid gives back the grid. */
  lemma GridRoundTrip(g: Grid)
    requires ValidGrid(g)
    ensures BufferToGrid(GridToBuffer(g)) == g
  {
    var g' := BufferToGrid(GridToBuffer(g));
    forall x | 0 <= x < g.width
      ensures g'.cells[x] == g.cells[x]
    {
      forall y | 0 <= y < g.height
        ensures g'.cells[x][y] == g.cells[x][y]
      {
        assert forall i | 0 <= i < BytesPerPixel :: g'.cells[x][y][i] == g.cells[x][y][i];
      }
    }
  }

  /** Packing the grid of a buffer gives back the buffer, byte for byte. */
  lemma BufferRoundTrip(img: Image)
    requires ValidImage(img)
    ensures GridToBuffer(BufferToGrid(img)) == img
  {
    var data := GridToBuffer(BufferToGrid(img)).data;
    forall j | 0 <= j < |img.data|
      ensures data[j] == img.data[j]
    {
      ByteRoundTrip(img, j);
    }
  }

  /** Byte `j` survives the trip through its pixel's grid cell. */
  lemma ByteRoundTrip(img: Image, j: nat)
    requires ValidImage(img) && j < |img.data|
    ensures j < |GridToBuffer(BufferToGrid(img)).data|
    ensures GridToBuffer(BufferToGrid(img)).data[j] == img.data[j]
  {
    PixelOfByte(img.width, img.height, j);
    var k := j / BytesPerPixel;
    var x, y, i := k % img.width, k / img.width, j % BytesPerPixel;
    var g := BufferToGrid(img);
    var c := g.cells[x][y][i];
    assert c == img.data[ByteIndex(img.width, x, y, i)];
    assert GridToBuffer(g).data[ByteIndex(img.width, x, y, i)] == c;
  }
}
