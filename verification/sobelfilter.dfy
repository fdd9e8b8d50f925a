/**
  The edge filter over a packed 32-bit buffer: unpack to the grid, detect
  edges, pack the result into a fresh buffer of the same dimensions.
 */
module SobelFilter {
  import opened Pixels
  import opened GridConversion
  import opened Sobel

  /** Byte `i` of pixel (x, y) of a packed buffer. */
  function PixelByte(img: Image, x: nat, y: nat, i: nat): byte
    requires ValidImage(img) && x < img.width && y < img.height && i < BytesPerPixel
  {
    OffsetInRange(img.width, img.height, x, y);
    img.data[ByteIndex(img.width, x, y, i)]
  }

  /** A pixel on the outermost ring of the image. */
  predicate OnBorder(img: Image, x: nat, y: nat) {
    x == 0 || y == 0 || x == img.width - 1 || y == img.height - 1
  }

  /**
    The filtered buffer: same dimensions; its grid is the edge grid of the
    input's grid; every byte of a border pixel is zero; every interior pixel
    has three equal colour bytes and keeps the input's alpha byte.
   */
  function SobelFilterBitmap(img: Image, t: int): (r: Image)
    requires ValidImage(img)
    ensures ValidImage(r) && r.width == img.width && r.height == img.height
    ensures BufferToGrid(r) == SobelEdgeDetection(BufferToGrid(img), t)
    ensures forall x: nat, y: nat, i: nat | x < img.width && y < img.height && i < BytesPerPixel && OnBorder(img, x, y) ::
              PixelByte(r, x, y, i) == 0
    ensures forall x: nat, y: nat | x < img.width && y < img.height && !OnBorder(img, x, y) ::
              && PixelByte(r, x, y, 0) == PixelByte(r, x, y, 1) == PixelByte(r, x, y, 2)
              && PixelByte(r, x, y, Alpha) == PixelByte(img, x, y, Alpha)
  {
    var g := BufferToGrid(img);
    var e := SobelEdgeDetection(g, t);
    GridRoundTrip(e);
    var r := GridToBuffer(e);
    UnpackedBytes(img);
    PackedBytes(e);
    FilteredBytes(img, g, e, r);
    r
  }

  /** The byte-level reading of an edge grid `e` of `g`, packed into `r`. */
  lemma FilteredBytes(img: Image, g: Grid, e: Grid, r: Image)
    requires ValidImage(img) && ValidImage(r) && r.width == img.width && r.height == img.height
    requires ValidGrid(g) && g.width == img.width && g.height == img.height
    requires ValidGrid(e) && e.width == g.width && e.height == g.height
    requires forall x: nat, y: nat, i: nat | x < img.width && y < img.height && i < BytesPerPixel ::
               PixelByte(img, x, y, i) == g.cells[x][y][i]
    requires forall x: nat, y: nat, i: nat | x < r.width && y < r.height && i < BytesPerPixel ::
               PixelByte(r, x, y, i) == e.cells[x][y][i]
    requires forall x, y {:trigger e.cells[x][y]} | 0 <= x < e.width && 0 <= y < e.height && !Interior(g, x, y) ::
               e.cells[x][y] == Blank
    requires forall x, y {:trigger e.cells[x][y]} | 0 <= x < e.width && 0 <= y < e.height && Interior(g, x, y) ::
               e.cells[x][y][0] == e.cells[x][y][1] == e.cells[x][y][2] && e.cells[x][y][Alpha] == g.cells[x][y][Alpha]
    ensures forall x: nat, y: nat, i: nat | x < img.width && y < img.height && i < BytesPerPixel && OnBorder(img, x, y) ::
              PixelByte(r, x, y, i) == 0
    ensures forall x: nat, y: nat | x < img.width && y < img.height && !OnBorder(img, x, y) ::
              && PixelByte(r, x, y, 0) == PixelByte(r, x, y, 1) == PixelByte(r, x, y, 2)
              && PixelByte(r, x, y, Alpha) == PixelByte(img, x, y, Alpha)
  {
    forall x: nat, y: nat, i: nat | x < img.width && y < img.height && i < BytesPerPixel && OnBorder(img, x, y)
      ensures PixelByte(r, x, y, i) == 0
    {
      assert !Interior(g, x, y);
      var c := e.cells[x][y];
      assert c == Blank;
      assert PixelByte(r, x, y, i) == c[i];
    }
    forall x: nat, y: nat | x < img.width && y < img.height && !OnBorder(img, x, y)
      ensures && PixelByte(r, x, y, 0) == PixelByte(r, x, y, 1) == PixelByte(r, x, y, 2)
              && PixelByte(r, x, y, Alpha) == PixelByte(img, x, y, Alpha)
    {
      assert Interior(g, x, y);
      var c := e.cells[x][y];
      assert PixelByte(r, x, y, 0) == c[0] && PixelByte(r, x, y, 1) == c[1] && PixelByte(r, x, y, 2) == c[2];
      assert PixelByte(r, x, y, Alpha) == c[Alpha] == g.cells[x][y][Alpha] == PixelByte(img, x, y, Alpha);
    }
  }

  /** Byte `i` of pixel (x, y) of a packed grid is channel `i` of the grid's cell (x, y). */
  lemma PackedByte(e: Grid, r: Image, x: nat, y: nat, i: nat)
    requires ValidGrid(e) && r == GridToBuffer(e) && x < e.width && y < e.height && i < BytesPerPixel
    ensures PixelByte(r, x, y, i) == e.cells[x][y][i]
  {
  }

  /** Every byte of a packed grid is the matching channel of its cell. */
  lemma PackedBytes(e: Grid)
    requires ValidGrid(e)
    ensures var r := GridToBuffer(e);
      forall x: nat, y: nat, i: nat | x < r.width && y < r.height && i < BytesPerPixel ::
        PixelByte(r, x, y, i) == e.cells[x][y][i]
  {
    forall x: nat, y: nat, i: nat | x < e.width && y < e.height && i < BytesPerPixel
      ensures PixelByte(GridToBuffer(e), x, y, i) == e.cells[x][y][i]
    {
      PackedByte(e, GridToBuffer(e), x, y, i);
    }
  }

  /** Every byte of a buffer is the matching channel of its grid's cell. */
  lemma UnpackedBytes(img: Image)
    requires ValidImage(img)
    ensures forall x: nat, y: nat, i: nat | x < img.width && y < img.height && i < BytesPerPixel ::
              PixelByte(img, x, y, i) == BufferToGrid(img).cells[x][y][i]
  {
  }

  /** An image of uniform intensity filters to black, keeping only the interior's alpha. */
  lemma FlatGreyFiltersToBlack(img: Image, t: int)
    requires ValidImage(img) && UniformIntensity(BufferToGrid(img))
    ensures forall x: nat, y: nat, i: nat | x < img.width && y < img.height && i < Alpha ::
              PixelByte(SobelFilterBitmap(img, t), x, y, i) == 0
  {
    var g := BufferToGrid(img);
    var e := SobelEdgeDetection(g, t);
    UniformHasNoEdges(g, t);
    GridRoundTrip(e);
    forall x: nat, y: nat, i: nat | x < img.width && y < img.height && i < Alpha
      ensures PixelByte(SobelFilterBitmap(img, t), x, y, i) == 0
    {
      PackedByte(e, GridToBuffer(e), x, y, i);
    }
  }
}
