/**
  The Sobel edge detector over a `[x, y][channel]` grid.

  Each interior cell gets a grey value from its 3 by 3 neighbourhood; every
  border cell stays as freshly allocated, all zero. The detector's
  floating-point arithmetic is modelled exactly with integers scaled by 3:
  the neighbourhood average `(c0 + c1 + c2) / 3` becomes the intensity
  `c0 + c1 + c2`, a gradient component `s / 3` is compared with the
  threshold `t` as `s < 3 * t`, and the magnitude `sqrt(sx² + sy²) / 3` is
  clamped to 255 and rounded to the nearest byte.
 */
module Sobel {
  import opened Pixels

  /** A 3 by 3 weight matrix, read as `k[iX + 1][iY + 1]`. */
  type Kernel = k: seq<seq<int>> | |k| == 3 && forall a | 0 <= a < 3 :: |k[a]| == 3
    witness [[0, 0, 0], [0, 0, 0], [0, 0, 0]]

  /**
    The matrix the detector calls its X kernel. Because its first index is
    the horizontal offset, it weighs the row below against the row above.
   */
  const SobelX: Kernel := [[-1, 0, 1], [-2, 0, 2], [-1, 0, 1]]

  /**
    The matrix the detector calls its Y kernel. Because its first index is
    the horizontal offset, it weighs the left column against the right one.
   */
  const SobelY: Kernel := [[1, 2, 1], [0, 0, 0], [-1, -2, -1]]

  /** Three times the average of the colour channels of cell (x, y). */
  function Intensity(g: Grid, x: int, y: int): (a: nat)
    requires ValidGrid(g) && 0 <= x < g.width && 0 <= y < g.height
    ensures a <= 3 * 255
  {
    g.cells[x][y][0] as int + g.cells[x][y][1] as int + g.cells[x][y][2] as int
  }

  /** Cell (x, y) has a full 3 by 3 neighbourhood inside the grid. */
  predicate Interior(g: Grid, x: int, y: int) {
    1 <= x < g.width - 1 && 1 <= y < g.height - 1
  }

  /** One kernel tap: the neighbour at offset (iX, iY), weighted by `k[iX + 1][iY + 1]`. */
  function Tap(g: Grid, k: Kernel, x: int, y: int, iX: int, iY: int): int
    requires ValidGrid(g) && Interior(g, x, y) && -1 <= iX <= 1 && -1 <= iY <= 1
  {
    Intensity(g, x + iX, y + iY) * k[iX + 1][iY + 1]
  }

  /** The inner loop: taps `iX` to 1 of neighbourhood row `iY`. */
  function RowTaps(g: Grid, k: Kernel, x: int, y: int, iY: int, iX: int): int
    requires ValidGrid(g) && Interior(g, x, y) && -1 <= iY <= 1 && -1 <= iX
    decreases 2 - iX
  {
    if iX > 1 then 0 else Tap(g, k, x, y, iX, iY) + RowTaps(g, k, x, y, iY, iX + 1)
  }

  /** The outer loop: neighbourhood rows `iY` to 1, each summed by the inner loop. */
  function RowsTaps(g: Grid, k: Kernel, x: int, y: int, iY: int): int
    requires ValidGrid(g) && Interior(g, x, y) && -1 <= iY
    decreases 2 - iY
  {
    if iY > 1 then 0 else RowTaps(g, k, x, y, iY, -1) + RowsTaps(g, k, x, y, iY + 1)
  }

  /** The detector's convolution of kernel `k` over the neighbourhood of cell (x, y), scaled by 3. */
  function KernelSum(g: Grid, k: Kernel, x: int, y: int): int
    requires ValidGrid(g) && Interior(g, x, y)
  {
    RowsTaps(g, k, x, y, -1)
  }

  /** The X component of cell (x, y), scaled by 3, as a difference: the row below minus the row above. */
  function GradientX(g: Grid, x: int, y: int): int
    requires ValidGrid(g) && Interior(g, x, y)
  {
    (Intensity(g, x - 1, y + 1) + 2 * Intensity(g, x, y + 1) + Intensity(g, x + 1, y + 1))
    - (Intensity(g, x - 1, y - 1) + 2 * Intensity(g, x, y - 1) + Intensity(g, x + 1, y - 1))
  }

  /** The Y component of cell (x, y), scaled by 3, as a difference: the left column minus the right one. */
  function GradientY(g: Grid, x: int, y: int): int
    requires ValidGrid(g) && Interior(g, x, y)
  {
    (Intensity(g, x - 1, y - 1) + 2 * Intensity(g, x - 1, y) + Intensity(g, x - 1, y + 1))
    - (Intensity(g, x + 1, y - 1) + 2 * Intensity(g, x + 1, y) + Intensity(g, x + 1, y + 1))
  }

  /** One row of the neighbourhood: its three taps, left to right. */
  lemma RowOfTaps(g: Grid, k: Kernel, x: int, y: int, iY: int)
    requires ValidGrid(g) && Interior(g, x, y) && -1 <= iY <= 1
    ensures RowTaps(g, k, x, y, iY, -1) == Tap(g, k, x, y, -1, iY) + Tap(g, k, x, y, 0, iY) + Tap(g, k, x, y, 1, iY)
  {
    assert RowTaps(g, k, x, y, iY, 1) == Tap(g, k, x, y, 1, iY);
  }

  /** The three rows of the neighbourhood, top to bottom. */
  lemma RowsOfTaps(g: Grid, k: Kernel, x: int, y: int)
    requires ValidGrid(g) && Interior(g, x, y)
    ensures KernelSum(g, k, x, y) == RowTaps(g, k, x, y, -1, -1) + RowTaps(g, k, x, y, 0, -1) + RowTaps(g, k, x, y, 1, -1)
  {
    assert RowsTaps(g, k, x, y, 1) == RowTaps(g, k, x, y, 1, -1);
  }

  /** The X kernel weighs the row below by 1, 2, 1, the row above by -1, -2, -1, and ignores the middle row. */
  lemma SobelXRows(g: Grid, x: int, y: int)
    requires ValidGrid(g) && Interior(g, x, y)
    ensures KernelSum(g, SobelX, x, y) == GradientX(g, x, y)
  {
    RowsOfTaps(g, SobelX, x, y);
    RowOfTaps(g, SobelX, x, y, -1);
    RowOfTaps(g, SobelX, x, y, 0);
    RowOfTaps(g, SobelX, x, y, 1);
  }

  /** In every row the Y kernel weighs the left neighbour against the right one, doubly so in the middle row. */
  lemma SobelYRow(g: Grid, x: int, y: int, iY: int)
    requires ValidGrid(g) && Interior(g, x, y) && -1 <= iY <= 1
    ensures RowTaps(g, SobelY, x, y, iY, -1)
            == (if iY == 0 then 2 else 1) * (Intensity(g, x - 1, y + iY) - Intensity(g, x + 1, y + iY))
  {
    RowOfTaps(g, SobelY, x, y, iY);
  }

  /** The Y kernel weighs the left column by 1, 2, 1 and the right column by -1, -2, -1. */
  lemma SobelYRows(g: Grid, x: int, y: int)
    requires ValidGrid(g) && Interior(g, x, y)
    ensures KernelSum(g, SobelY, x, y) == GradientY(g, x, y)
  {
    RowsOfTaps(g, SobelY, x, y);
    SobelYRow(g, x, y, -1);
    SobelYRow(g, x, y, 0);
    SobelYRow(g, x, y, 1);
  }

  /**
    With the kernels read as `k[iX + 1][iY + 1]`, the detector's X sum is the
    below-minus-above difference and its Y sum the left-minus-right one.
   */
  lemma KernelSumsAreGradients(g: Grid, x: int, y: int)
    requires ValidGrid(g) && Interior(g, x, y)
    ensures KernelSum(g, SobelX, x, y) == GradientX(g, x, y)
    ensures KernelSum(g, SobelY, x, y) == GradientY(g, x, y)
  {
    SobelXRows(g, x, y);
    SobelYRows(g, x, y);
  }

  /** A scaled component below the threshold is discarded; any other passes unchanged. */
  function Discard(s: int, t: int): (r: int)
    ensures r == 0 || (r == s && 3 * t <= s)
    ensures 3 * t <= s ==> r == s
    ensures 0 <= t ==> 0 <= r
  {
    if s < 3 * t then 0 else s
  }

  /**
    The square of `a`, built from the differences of consecutive squares
    like `Upper` below, so that facts about it stay linear;
    `SqIsProduct` gives the product.
   */
  function Sq(a: int): nat
    decreases if a < 0 then 1 - a else a
  {
    if a < 0 then Sq(-a) else if a == 0 then 0 else Sq(a - 1) + 2 * a - 1
  }

  /** Squares of naturals grow strictly. */
  lemma {:induction false} SqGrows(a: nat, b: nat)
    requires a < b
    ensures Sq(a) < Sq(b)
    decreases b
  {
    if a < b - 1 {
      SqGrows(a, b - 1);
    }
  }

  /** `Sq(a)` is `a * a`. */
  lemma {:induction false} SqIsProduct(a: int)
    ensures Sq(a) == a * a
    decreases if a < 0 then 1 - a else a
  {
    if a < 0 {
      SqIsProduct(-a);
    } else if a > 0 {
      SqIsProduct(a - 1);
      assert (a - 1) * (a - 1) == a * a - 2 * a + 1;
    }
  }

  /**
    `(6 * r + 3)²`: four times the square of the upper end of the interval
    of magnitudes that round to `r`. Defined by the differences of
    consecutive odd squares, so that comparisons with it stay linear.
   */
  function Upper(r: nat): nat {
    if r == 0 then 9 else Upper(r - 1) + 72 * r
  }

  /** Four times the square of the lower end of the interval that rounds to `r`. */
  function Lower(r: nat): nat {
    if r == 0 then 0 else Upper(r - 1)
  }

  /** `Upper(r)` is the square it stands for. */
  lemma {:induction false} UpperIsSquare(r: nat)
    ensures Upper(r) == Sq(6 * r + 3)
  {
    if r > 0 {
      UpperIsSquare(r - 1);
      SqIsProduct(6 * r + 3);
      SqIsProduct(6 * r - 3);
    }
  }

  /** The interval that rounds to `r1` ends before the one that rounds to a larger `r2` begins. */
  lemma {:induction false} UpperBelowLower(r1: nat, r2: nat)
    requires r1 < r2
    ensures Upper(r1) <= Lower(r2)
    decreases r2
  {
    if r1 + 1 < r2 {
      UpperBelowLower(r1, r2 - 1);
    }
  }

  /**
    `r` is the byte the detector writes for a squared scaled magnitude `n`:
    `sqrt(n) / 3`, clamped to 255, rounded to the nearest integer. Comparing
    `2 * sqrt(n)` with `6 * r - 3` and `6 * r + 3` needs no square root: the
    byte is 255 exactly when `4 * n` reaches `1527²`, and any smaller byte
    `r` covers `4 * n` from `Lower(r)` up to `(6 * r + 3)²`. A tie would need
    `4 * n` to equal an odd square, so rounding to even never comes into play.
   */
  predicate IsRoundedMagnitude(n: nat, r: int) {
    && 0 <= r <= 255
    && Lower(r) <= 4 * n
    && (r < 255 ==> 4 * n < Upper(r))
  }

  /** Every squared magnitude has exactly one rounded byte. */
  lemma RoundedMagnitudeUnique(n: nat, r1: int, r2: int)
    requires IsRoundedMagnitude(n, r1) && IsRoundedMagnitude(n, r2)
    ensures r1 == r2
  {
    if r1 < r2 {
      UpperBelowLower(r1, r2);
    } else if r2 < r1 {
      UpperBelowLower(r2, r1);
    }
  }

  /** Searches upward from `r` for the rounded byte of `n`. */
  function RoundFrom(n: nat, r: nat): (q: byte)
    requires r <= 255 && Lower(r) <= 4 * n
    ensures IsRoundedMagnitude(n, q)
    ensures r <= q
    decreases 255 - r
  {
    if r == 255 then 255
    else if 4 * n < Upper(r) then r
    else RoundFrom(n, r + 1)
  }

  /** The byte written for the two surviving scaled components. */
  function Magnitude(sx: int, sy: int): (r: byte)
    ensures IsRoundedMagnitude(Sq(sx) + Sq(sy), r)
    ensures sx == 0 && sy == 0 ==> r == 0
  {
    RoundFrom(Sq(sx) + Sq(sy), 0)
  }

  /** A larger squared magnitude never rounds to a smaller byte. */
  lemma MagnitudeMonotone(n1: nat, r1: int, n2: nat, r2: int)
    requires n1 <= n2 && IsRoundedMagnitude(n1, r1) && IsRoundedMagnitude(n2, r2)
    ensures r1 <= r2
  {
    if r2 < r1 {
      UpperBelowLower(r2, r1);
    }
  }

  /** The grey value of interior cell (x, y). */
  function EdgeValue(g: Grid, t: int, x: int, y: int): (v: byte)
    requires ValidGrid(g) && Interior(g, x, y)
    ensures IsRoundedMagnitude(Sq(Discard(GradientX(g, x, y), t)) + Sq(Discard(GradientY(g, x, y), t)), v)
  {
    KernelSumsAreGradients(g, x, y);
    Magnitude(Discard(KernelSum(g, SobelX, x, y), t), Discard(KernelSum(g, SobelY, x, y), t))
  }

  /** The output cell at (x, y): the grey value with the input's alpha inside, zero on the border. */
  function EdgeCell(g: Grid, t: int, x: nat, y: nat): (c: Cell)
    requires ValidGrid(g) && x < g.width && y < g.height
    ensures !Interior(g, x, y) ==> c == Blank
    ensures Interior(g, x, y) ==>
              && c[0] == c[1] == c[2]
              && c[Alpha] == g.cells[x][y][Alpha]
              && IsRoundedMagnitude(Sq(Discard(GradientX(g, x, y), t)) + Sq(Discard(GradientY(g, x, y), t)), c[0])
  {
    if Interior(g, x, y) then
      var v := EdgeValue(g, t, x, y);
      [v, v, v, g.cells[x][y][Alpha]]
    else Blank
  }

  /** The output grid has the input's dimensions; border cells are zero; interior cells are grey. */
  function SobelEdgeDetection(g: Grid, t: int): (r: Grid)
    requires ValidGrid(g)
    ensures ValidGrid(r) && r.width == g.width && r.height == g.height
    ensures forall x, y {:trigger r.cells[x][y]} | 0 <= x < r.width && 0 <= y < r.height && !Interior(g, x, y) ::
              r.cells[x][y] == Blank
    ensures g.width < 3 || g.height < 3 ==>
              forall x, y | 0 <= x < r.width && 0 <= y < r.height :: r.cells[x][y] == Blank
    ensures forall x, y {:trigger r.cells[x][y]} | 0 <= x < r.width && 0 <= y < r.height && Interior(g, x, y) ::
              && r.cells[x][y][0] == r.cells[x][y][1] == r.cells[x][y][2]
              && r.cells[x][y][Alpha] == g.cells[x][y][Alpha]
              && IsRoundedMagnitude(Sq(Discard(GradientX(g, x, y), t)) + Sq(Discard(GradientY(g, x, y), t)),
                                    r.cells[x][y][0])
  {
    var r := EdgeGrid(g, t);
    CellsAreEdgeCells(g, t, r);
    r
  }

  /** The grid of edge cells of `g`, column by column. */
  function EdgeGrid(g: Grid, t: int): (r: Grid)
    requires ValidGrid(g)
    ensures ValidGrid(r) && r.width == g.width && r.height == g.height
    ensures forall x, y | 0 <= x < r.width && 0 <= y < r.height :: r.cells[x][y] == EdgeCell(g, t, x, y)
  {
    Grid(g.width, g.height,
         seq(g.width, x requires 0 <= x < g.width =>
           seq(g.height, y requires 0 <= y < g.height => EdgeCell(g, t, x, y))))
  }

  /** The grey byte the detector writes at cell (x, y). */
  function EdgeByte(g: Grid, t: int, x: nat, y: nat): byte
    requires ValidGrid(g) && x < g.width && y < g.height
  {
    SobelEdgeDetection(g, t).cells[x][y][0]
  }

  /** A grid whose cells are the edge cells of `g` has the detector's border and interior. */
  lemma CellsAreEdgeCells(g: Grid, t: int, r: Grid)
    requires ValidGrid(g) && ValidGrid(r) && r.width == g.width && r.height == g.height
    requires forall x, y | 0 <= x < r.width && 0 <= y < r.height :: r.cells[x][y] == EdgeCell(g, t, x, y)
    ensures forall x, y {:trigger r.cells[x][y]} | 0 <= x < r.width && 0 <= y < r.height && !Interior(g, x, y) ::
              r.cells[x][y] == Blank
    ensures g.width < 3 || g.height < 3 ==>
              forall x, y | 0 <= x < r.width && 0 <= y < r.height :: r.cells[x][y] == Blank
    ensures forall x, y {:trigger r.cells[x][y]} | 0 <= x < r.width && 0 <= y < r.height && Interior(g, x, y) ::
              && r.cells[x][y][0] == r.cells[x][y][1] == r.cells[x][y][2]
              && r.cells[x][y][Alpha] == g.cells[x][y][Alpha]
              && IsRoundedMagnitude(Sq(Discard(GradientX(g, x, y), t)) + Sq(Discard(GradientY(g, x, y), t)),
                                    r.cells[x][y][0])
  {
  }

  /** Every cell has the same intensity, the sum of its colour channels. */
  predicate UniformIntensity(g: Grid)
    requires ValidGrid(g)
  {
    forall x, y | 0 <= x < g.width && 0 <= y < g.height :: Intensity(g, x, y) == Intensity(g, 0, 0)
  }

  /** An interior cell of a uniform grid has no edge. */
  lemma UniformCellHasNoEdge(g: Grid, t: int, x: nat, y: nat)
    requires ValidGrid(g) && UniformIntensity(g) && x < g.width && y < g.height && Interior(g, x, y)
    ensures SobelEdgeDetection(g, t).cells[x][y][0] == 0
  {
    var gx, gy := GradientX(g, x, y), GradientY(g, x, y);
    assert gx == 0 && gy == 0;
    assert Discard(gx, t) == 0 && Discard(gy, t) == 0;
    assert Sq(0) == 0;
    RoundedMagnitudeUnique(0, SobelEdgeDetection(g, t).cells[x][y][0], 0);
  }

  /** A grid of uniform intensity has no edges, whatever the threshold: every colour channel is zero. */
  lemma UniformHasNoEdges(g: Grid, t: int)
    requires ValidGrid(g) && UniformIntensity(g)
    ensures forall x, y, i | 0 <= x < g.width && 0 <= y < g.height && 0 <= i < Alpha ::
              SobelEdgeDetection(g, t).cells[x][y][i] == 0
  {
    forall x, y, i | 0 <= x < g.width && 0 <= y < g.height && 0 <= i < Alpha
      ensures SobelEdgeDetection(g, t).cells[x][y][i] == 0
    {
      UniformCellIsBlack(g, t, x, y, i);
    }
  }

  /** One colour channel of one cell of the edge grid of a uniform grid. */
  lemma UniformCellIsBlack(g: Grid, t: int, x: nat, y: nat, i: nat)
    requires ValidGrid(g) && UniformIntensity(g) && x < g.width && y < g.height && i < Alpha
    ensures SobelEdgeDetection(g, t).cells[x][y][i] == 0
  {
    var c := SobelEdgeDetection(g, t).cells[x][y];
    if Interior(g, x, y) {
      UniformCellHasNoEdge(g, t, x, y);
      assert c[i] == c[0];
    } else {
      assert c == Blank;
    }
  }

  /** With a non-negative threshold a component pointing the other way never contributes. */
  lemma NegativeComponentsDiscarded(g: Grid, t: int, x: int, y: int)
    requires ValidGrid(g) && Interior(g, x, y) && 0 <= t
    ensures GradientX(g, x, y) < 0 ==> Discard(GradientX(g, x, y), t) == 0
    ensures GradientY(g, x, y) < 0 ==> Discard(GradientY(g, x, y), t) == 0
    ensures GradientX(g, x, y) < 0 && GradientY(g, x, y) < 0 ==> EdgeValue(g, t, x, y) == 0
  {
    if GradientX(g, x, y) < 0 && GradientY(g, x, y) < 0 {
      RoundedMagnitudeUnique(0, EdgeValue(g, t, x, y), 0);
    }
  }

  /** A black grid with one grey pixel of value `v` at (cx, cy), alpha arbitrary. */
  predicate Spot(g: Grid, cx: nat, cy: nat, v: byte)
    requires ValidGrid(g)
  {
    forall x, y, i | 0 <= x < g.width && 0 <= y < g.height && 0 <= i < Alpha ::
      g.cells[x][y][i] == if x == cx && y == cy then v else 0
  }

  /** Below the clamp, a lone scaled component of `6 * v` rounds to `2 * v`. */
  lemma LoneComponentBelowClamp(v: byte)
    requires 2 * v < 255
    ensures IsRoundedMagnitude(Sq(6 * v) + Sq(0), 2 * v)
  {
    UpperIsSquare(2 * v);
    DoubleSq(6 * v, 12 * v);
    SqGrows(12 * v, 12 * v + 3);
    if v > 0 {
      UpperIsSquare(2 * v - 1);
      SqGrows(12 * v - 3, 12 * v);
    }
  }

  /** From 128 on, a lone scaled component of `6 * v` reaches the clamp. */
  lemma LoneComponentClamped(v: byte)
    requires 255 <= 2 * v
    ensures IsRoundedMagnitude(Sq(6 * v) + Sq(0), 255)
  {
    UpperBelowComponent(254, v);
  }

  /** A lone scaled component of `6 * v` reaches band `r` once `6 * r + 3 <= 12 * v`. */
  lemma UpperBelowComponent(r: nat, v: nat)
    requires 6 * r + 3 <= 12 * v
    ensures Upper(r) <= 4 * Sq(6 * v)
  {
    UpperIsSquare(r);
    DoubleSq(6 * v, 12 * v);
    if 6 * r + 3 < 12 * v {
      SqGrows(6 * r + 3, 12 * v);
    }
  }

  /** Four times the square of `a` is the square of `b = 2 * a`. */
  lemma DoubleSq(a: nat, b: nat)
    requires b == 2 * a
    ensures 4 * Sq(a) == Sq(b)
  {
    SqIsProduct(a);
    SqIsProduct(b);
  }

  /** The byte a lone scaled component of `6 * v` rounds to is `min(2 * v, 255)`. */
  lemma LoneComponent(v: byte)
    ensures IsRoundedMagnitude(Sq(6 * v) + Sq(0), if 2 * v < 255 then 2 * v else 255)
  {
    if 2 * v < 255 {
      LoneComponentBelowClamp(v);
    } else {
      LoneComponentClamped(v);
    }
  }

  /** A lone scaled component of `3 * v` rounds to `v`. */
  lemma HalfComponent(v: byte)
    ensures IsRoundedMagnitude(Sq(3 * v) + Sq(0), v)
  {
    UpperIsSquare(v);
    DoubleSq(3 * v, 6 * v);
    SqGrows(6 * v, 6 * v + 3);
    if v > 0 {
      UpperIsSquare(v - 1);
      SqGrows(6 * v - 3, 6 * v);
    }
  }

  /** Two equal scaled components of `3 * v` round to a byte from `v` to `2 * v`: `v * sqrt(2)`, rounded and clamped to 255. */
  lemma DiagonalMagnitude(v: byte, c: int)
    requires IsRoundedMagnitude(2 * Sq(3 * v), c)
    ensures v <= c <= 2 * v
  {
    DoubleSq(3 * v, 6 * v);
    if c < v {
      UpperBelowLower(c, v);
      UpperIsSquare(v - 1);
      SqGrows(6 * v - 3, 6 * v);
      assert false;
    }
    if 2 * v < c {
      UpperBelowLower(2 * v, c);
      UpperIsSquare(2 * v);
      DoubleSq(6 * v, 12 * v);
      SqGrows(12 * v, 12 * v + 3);
      assert false;
    }
  }

  /** In a spot grid only the spot has any intensity. */
  lemma SpotIntensity(g: Grid, cx: nat, cy: nat, v: byte)
    requires ValidGrid(g) && Spot(g, cx, cy, v)
    ensures forall x, y | 0 <= x < g.width && 0 <= y < g.height ::
              Intensity(g, x, y) == if x == cx && y == cy then 3 * v else 0
  {
    forall x, y | 0 <= x < g.width && 0 <= y < g.height
      ensures Intensity(g, x, y) == if x == cx && y == cy then 3 * v else 0
    {
      assert g.cells[x][y][0] == g.cells[x][y][1] == g.cells[x][y][2] == if x == cx && y == cy then v else 0;
    }
  }

  /** An interior cell whose surviving components are (sx, sy) holds the byte they round to. */
  lemma EdgeFromComponents(g: Grid, t: int, x: nat, y: nat, sx: int, sy: int, m: int)
    requires ValidGrid(g) && x < g.width && y < g.height && Interior(g, x, y)
    requires Discard(GradientX(g, x, y), t) == sx && Discard(GradientY(g, x, y), t) == sy
    requires IsRoundedMagnitude(Sq(sx) + Sq(sy), m)
    ensures SobelEdgeDetection(g, t).cells[x][y][0] == m
  {
    RoundedMagnitudeUnique(Sq(sx) + Sq(sy), SobelEdgeDetection(g, t).cells[x][y][0], m);
  }

  /** An interior cell with one surviving component of `6 * v` and none other is `min(2 * v, 255)`. */
  lemma LoneEdge(g: Grid, t: int, x: nat, y: nat, v: byte)
    requires ValidGrid(g) && x < g.width && y < g.height && Interior(g, x, y)
    requires || (Discard(GradientX(g, x, y), t) == 6 * v && Discard(GradientY(g, x, y), t) == 0)
             || (Discard(GradientX(g, x, y), t) == 0 && Discard(GradientY(g, x, y), t) == 6 * v)
    ensures SobelEdgeDetection(g, t).cells[x][y][0] == if 2 * v < 255 then 2 * v else 255
  {
    LoneComponent(v);
    if Discard(GradientX(g, x, y), t) == 6 * v && Discard(GradientY(g, x, y), t) == 0 {
      EdgeFromComponents(g, t, x, y, 6 * v, 0, if 2 * v < 255 then 2 * v else 255);
    } else {
      assert Sq(0) + Sq(6 * v) == Sq(6 * v) + Sq(0);
      EdgeFromComponents(g, t, x, y, 0, 6 * v, if 2 * v < 255 then 2 * v else 255);
    }
  }

  /** An interior cell whose components are both discarded is black. */
  lemma NoEdge(g: Grid, t: int, x: nat, y: nat)
    requires ValidGrid(g) && x < g.width && y < g.height && Interior(g, x, y)
    requires Discard(GradientX(g, x, y), t) == 0 && Discard(GradientY(g, x, y), t) == 0
    ensures SobelEdgeDetection(g, t).cells[x][y][0] == 0
  {
    assert Sq(0) == 0;
    EdgeFromComponents(g, t, x, y, 0, 0, 0);
  }

  /** The components around a lone grey pixel: `6 * v` or `-6 * v` towards it, zero across it. */
  lemma SpotGradients(g: Grid, cx: nat, cy: nat, v: byte)
    requires ValidGrid(g) && 2 <= cx <= g.width - 3 && 2 <= cy <= g.height - 3 && Spot(g, cx, cy, v)
    ensures GradientX(g, cx, cy - 1) == 6 * v && GradientY(g, cx, cy - 1) == 0
    ensures GradientX(g, cx + 1, cy) == 0 && GradientY(g, cx + 1, cy) == 6 * v
    ensures GradientX(g, cx, cy + 1) == -6 * v && GradientY(g, cx, cy + 1) == 0
    ensures GradientX(g, cx - 1, cy) == 0 && GradientY(g, cx - 1, cy) == -6 * v
  {
    SpotIntensity(g, cx, cy, v);
  }

  /** With a zero threshold, an interior cell whose components are `6 * v` across and 0 down is `min(2 * v, 255)`. */
  lemma LitAcross(g: Grid, x: nat, y: nat, v: byte)
    requires ValidGrid(g) && x < g.width && y < g.height && Interior(g, x, y)
    requires GradientX(g, x, y) == 6 * v && GradientY(g, x, y) == 0
    ensures EdgeByte(g, 0, x, y) == if 2 * v < 255 then 2 * v else 255
  {
    LoneEdge(g, 0, x, y, v);
  }

  /** With a zero threshold, an interior cell whose components are 0 across and `6 * v` down is `min(2 * v, 255)`. */
  lemma LitDown(g: Grid, x: nat, y: nat, v: byte)
    requires ValidGrid(g) && x < g.width && y < g.height && Interior(g, x, y)
    requires GradientX(g, x, y) == 0 && GradientY(g, x, y) == 6 * v
    ensures EdgeByte(g, 0, x, y) == if 2 * v < 255 then 2 * v else 255
  {
    LoneEdge(g, 0, x, y, v);
  }

  /** With a zero threshold, an interior cell whose components are `-6 * v` across and 0 down is black. */
  lemma DarkAcross(g: Grid, x: nat, y: nat, v: byte)
    requires ValidGrid(g) && x < g.width && y < g.height && Interior(g, x, y)
    requires GradientX(g, x, y) == -6 * v && GradientY(g, x, y) == 0
    ensures EdgeByte(g, 0, x, y) == 0
  {
    NoEdge(g, 0, x, y);
  }

  /** With a zero threshold, an interior cell whose components are 0 across and `-6 * v` down is black. */
  lemma DarkDown(g: Grid, x: nat, y: nat, v: byte)
    requires ValidGrid(g) && x < g.width && y < g.height && Interior(g, x, y)
    requires GradientX(g, x, y) == 0 && GradientY(g, x, y) == -6 * v
    ensures EdgeByte(g, 0, x, y) == 0
  {
    NoEdge(g, 0, x, y);
  }

  /** The cells above and right of a lone grey pixel, given the components they see. */
  lemma LitAroundSpot(g: Grid, cx: nat, cy: nat, v: byte)
    requires ValidGrid(g) && 2 <= cx <= g.width - 3 && 2 <= cy <= g.height - 3
    requires GradientX(g, cx, cy - 1) == 6 * v && GradientY(g, cx, cy - 1) == 0
    requires GradientX(g, cx + 1, cy) == 0 && GradientY(g, cx + 1, cy) == 6 * v
    ensures EdgeByte(g, 0, cx, cy - 1) == if 2 * v < 255 then 2 * v else 255
    ensures EdgeByte(g, 0, cx + 1, cy) == if 2 * v < 255 then 2 * v else 255
  {
    LitAbove(g, cx, cy, v);
    LitRight(g, cx, cy, v);
  }

  /** The cell above a lone grey pixel sees `6 * v` across. */
  lemma LitAbove(g: Grid, cx: nat, cy: nat, v: byte)
    requires ValidGrid(g) && 2 <= cx <= g.width - 3 && 2 <= cy <= g.height - 3
    requires GradientX(g, cx, cy - 1) == 6 * v && GradientY(g, cx, cy - 1) == 0
    ensures EdgeByte(g, 0, cx, cy - 1) == if 2 * v < 255 then 2 * v else 255
  {
    LitAcross(g, cx, cy - 1, v);
  }

  /** The cell right of a lone grey pixel sees `6 * v` down. */
  lemma LitRight(g: Grid, cx: nat, cy: nat, v: byte)
    requires ValidGrid(g) && 2 <= cx <= g.width - 3 && 2 <= cy <= g.height - 3
    requires GradientX(g, cx + 1, cy) == 0 && GradientY(g, cx + 1, cy) == 6 * v
    ensures EdgeByte(g, 0, cx + 1, cy) == if 2 * v < 255 then 2 * v else 255
  {
    LitDown(g, cx + 1, cy, v);
  }

  /** The cells below and left of a lone grey pixel, given the components they see. */
  lemma DarkAroundSpot(g: Grid, cx: nat, cy: nat, v: byte)
    requires ValidGrid(g) && 2 <= cx <= g.width - 3 && 2 <= cy <= g.height - 3
    requires GradientX(g, cx, cy + 1) == -6 * v && GradientY(g, cx, cy + 1) == 0
    requires GradientX(g, cx - 1, cy) == 0 && GradientY(g, cx - 1, cy) == -6 * v
    ensures EdgeByte(g, 0, cx, cy + 1) == 0
    ensures EdgeByte(g, 0, cx - 1, cy) == 0
  {
    DarkBelow(g, cx, cy, v);
    DarkLeft(g, cx, cy, v);
  }

  /** The cell below a lone grey pixel sees `-6 * v` across. */
  lemma DarkBelow(g: Grid, cx: nat, cy: nat, v: byte)
    requires ValidGrid(g) && 2 <= cx <= g.width - 3 && 2 <= cy <= g.height - 3
    requires GradientX(g, cx, cy + 1) == -6 * v && GradientY(g, cx, cy + 1) == 0
    ensures EdgeByte(g, 0, cx, cy + 1) == 0
  {
    DarkAcross(g, cx, cy + 1, v);
  }

  /** The cell left of a lone grey pixel sees `-6 * v` down. */
  lemma DarkLeft(g: Grid, cx: nat, cy: nat, v: byte)
    requires ValidGrid(g) && 2 <= cx <= g.width - 3 && 2 <= cy <= g.height - 3
    requires GradientX(g, cx - 1, cy) == 0 && GradientY(g, cx - 1, cy) == -6 * v
    ensures EdgeByte(g, 0, cx - 1, cy) == 0
  {
    DarkDown(g, cx - 1, cy, v);
  }

  /**
    Of the four direct neighbours of a lone grey pixel, only the cell above
    it and the cell to its right light up: their components are positive.
    The cell below and the cell to the left see negative components, which a
    zero threshold discards. The diagonal neighbours are `SpotDiagonals`.
   */
  lemma SpotEdges(g: Grid, cx: nat, cy: nat, v: byte)
    requires ValidGrid(g) && 2 <= cx <= g.width - 3 && 2 <= cy <= g.height - 3 && Spot(g, cx, cy, v)
    ensures EdgeByte(g, 0, cx, cy - 1) == if 2 * v < 255 then 2 * v else 255
    ensures EdgeByte(g, 0, cx + 1, cy) == if 2 * v < 255 then 2 * v else 255
    ensures EdgeByte(g, 0, cx, cy + 1) == 0
    ensures EdgeByte(g, 0, cx - 1, cy) == 0
  {
    SpotGradients(g, cx, cy, v);
    LitAroundSpot(g, cx, cy, v);
    DarkAroundSpot(g, cx, cy, v);
  }

  /** The components the diagonal neighbours of a lone grey pixel see: `3 * v` or `-3 * v` each. */
  lemma SpotDiagonalGradients(g: Grid, cx: nat, cy: nat, v: byte)
    requires ValidGrid(g) && 2 <= cx <= g.width - 3 && 2 <= cy <= g.height - 3 && Spot(g, cx, cy, v)
    ensures GradientX(g, cx - 1, cy - 1) == 3 * v && GradientY(g, cx - 1, cy - 1) == -3 * v
    ensures GradientX(g, cx + 1, cy - 1) == 3 * v && GradientY(g, cx + 1, cy - 1) == 3 * v
    ensures GradientX(g, cx + 1, cy + 1) == -3 * v && GradientY(g, cx + 1, cy + 1) == 3 * v
    ensures GradientX(g, cx - 1, cy + 1) == -3 * v && GradientY(g, cx - 1, cy + 1) == -3 * v
  {
    SpotIntensity(g, cx, cy, v);
  }

  /** With a zero threshold, an interior cell whose components are `3 * v` across and `-3 * v` down is `v`. */
  lemma DimAcross(g: Grid, x: nat, y: nat, v: byte)
    requires ValidGrid(g) && x < g.width && y < g.height && Interior(g, x, y)
    requires GradientX(g, x, y) == 3 * v && GradientY(g, x, y) == -3 * v
    ensures EdgeByte(g, 0, x, y) == v
  {
    HalfComponent(v);
    EdgeFromComponents(g, 0, x, y, 3 * v, 0, v);
  }

  /** With a zero threshold, an interior cell whose components are `-3 * v` across and `3 * v` down is `v`. */
  lemma DimDown(g: Grid, x: nat, y: nat, v: byte)
    requires ValidGrid(g) && x < g.width && y < g.height && Interior(g, x, y)
    requires GradientX(g, x, y) == -3 * v && GradientY(g, x, y) == 3 * v
    ensures EdgeByte(g, 0, x, y) == v
  {
    HalfComponent(v);
    assert Sq(0) + Sq(3 * v) == Sq(3 * v) + Sq(0);
    EdgeFromComponents(g, 0, x, y, 0, 3 * v, v);
  }

  /**
    With a zero threshold, an interior cell whose components are both `3 * v`
    gets `v * sqrt(2)`, rounded and clamped to 255: a byte from `v` to `2 * v`.
   */
  lemma DimBoth(g: Grid, x: nat, y: nat, v: byte)
    requires ValidGrid(g) && x < g.width && y < g.height && Interior(g, x, y)
    requires GradientX(g, x, y) == 3 * v && GradientY(g, x, y) == 3 * v
    ensures IsRoundedMagnitude(2 * Sq(3 * v), EdgeByte(g, 0, x, y))
    ensures v <= EdgeByte(g, 0, x, y) <= 2 * v
  {
    var c := EdgeByte(g, 0, x, y);
    assert IsRoundedMagnitude(Sq(3 * v) + Sq(3 * v), c);
    DiagonalMagnitude(v, c);
  }

  /** With a zero threshold, an interior cell whose components are both `-3 * v` is black. */
  lemma DarkBoth(g: Grid, x: nat, y: nat, v: byte)
    requires ValidGrid(g) && x < g.width && y < g.height && Interior(g, x, y)
    requires GradientX(g, x, y) == -3 * v && GradientY(g, x, y) == -3 * v
    ensures EdgeByte(g, 0, x, y) == 0
  {
    NoEdge(g, 0, x, y);
  }

  /** The cell above and left of a lone grey pixel sees `3 * v` across and `-3 * v` down. */
  lemma DimAboveLeft(g: Grid, cx: nat, cy: nat, v: byte)
    requires ValidGrid(g) && 2 <= cx <= g.width - 3 && 2 <= cy <= g.height - 3
    requires GradientX(g, cx - 1, cy - 1) == 3 * v && GradientY(g, cx - 1, cy - 1) == -3 * v
    ensures EdgeByte(g, 0, cx - 1, cy - 1) == v
  {
    DimAcross(g, cx - 1, cy - 1, v);
  }

  /** The cell above and right of a lone grey pixel sees `3 * v` both ways. */
  lemma DimAboveRight(g: Grid, cx: nat, cy: nat, v: byte)
    requires ValidGrid(g) && 2 <= cx <= g.width - 3 && 2 <= cy <= g.height - 3
    requires GradientX(g, cx + 1, cy - 1) == 3 * v && GradientY(g, cx + 1, cy - 1) == 3 * v
    ensures IsRoundedMagnitude(2 * Sq(3 * v), EdgeByte(g, 0, cx + 1, cy - 1))
    ensures v <= EdgeByte(g, 0, cx + 1, cy - 1) <= 2 * v
  {
    DimBoth(g, cx + 1, cy - 1, v);
  }

  /** The cell below and right of a lone grey pixel sees `-3 * v` across and `3 * v` down. */
  lemma DimBelowRight(g: Grid, cx: nat, cy: nat, v: byte)
    requires ValidGrid(g) && 2 <= cx <= g.width - 3 && 2 <= cy <= g.height - 3
    requires GradientX(g, cx + 1, cy + 1) == -3 * v && GradientY(g, cx + 1, cy + 1) == 3 * v
    ensures EdgeByte(g, 0, cx + 1, cy + 1) == v
  {
    DimDown(g, cx + 1, cy + 1, v);
  }

  /** The cell below and left of a lone grey pixel sees `-3 * v` both ways. */
  lemma DarkBelowLeft(g: Grid, cx: nat, cy: nat, v: byte)
    requires ValidGrid(g) && 2 <= cx <= g.width - 3 && 2 <= cy <= g.height - 3
    requires GradientX(g, cx - 1, cy + 1) == -3 * v && GradientY(g, cx - 1, cy + 1) == -3 * v
    ensures EdgeByte(g, 0, cx - 1, cy + 1) == 0
  {
    DarkBoth(g, cx - 1, cy + 1, v);
  }

  /**
    The diagonal neighbours of a lone grey pixel: above-left and below-right
    become `v`; above-right becomes `v * sqrt(2)`, rounded and clamped to
    255, a byte from `v` to `2 * v`; below-left, whose two components are
    negative, stays 0.
   */
  lemma SpotDiagonals(g: Grid, cx: nat, cy: nat, v: byte)
    requires ValidGrid(g) && 2 <= cx <= g.width - 3 && 2 <= cy <= g.height - 3 && Spot(g, cx, cy, v)
    ensures EdgeByte(g, 0, cx - 1, cy - 1) == v
    ensures IsRoundedMagnitude(2 * Sq(3 * v), EdgeByte(g, 0, cx + 1, cy - 1))
    ensures v <= EdgeByte(g, 0, cx + 1, cy - 1) <= 2 * v
    ensures EdgeByte(g, 0, cx + 1, cy + 1) == v
    ensures EdgeByte(g, 0, cx - 1, cy + 1) == 0
  {
    SpotDiagonalGradients(g, cx, cy, v);
    DimAboveLeft(g, cx, cy, v);
    DimAboveRight(g, cx, cy, v);
    DimBelowRight(g, cx, cy, v);
    DarkBelowLeft(g, cx, cy, v);
  }
}
