/**
  The in-place greyscale sweep over a packed 32-bit buffer.

  The sweep walks the pixels in buffer order. One four-slot scratch array
  `bgra` is shared by the whole sweep. For each pixel, channel i is read into
  `bgra[i]`, then the average of `bgra[0..3]` is written back to channel i,
  before channels i+1 and i+2 of this pixel are read. So channel 0 averages
  in the previous pixel's original channels 1 and 2, and channel 1 averages
  in the previous pixel's original channel 2. Only channel 2 receives the
  true average. Alpha is never touched. Before the first pixel the scratch
  array holds zeros.
 */
module Greyscale {
  import opened Pixels

  /** Integer average of three bytes; all operands are non-negative, so this is the floor. */
  function Avg3(a: byte, b: byte, c: byte): (r: byte)
    ensures 3 * r <= a + b + c < 3 * r + 3
  {
    (a + b + c) / 3
  }

  /** Channel 1 of the pixel before pixel `k`, as the scratch array carries it into pixel `k`. */
  function CarriedChannel1(data: seq<byte>, p1: byte, k: nat): byte
    requires BytesPerPixel * k <= |data|
  {
    if k == 0 then p1 else Channel(data, k - 1, 1)
  }

  /** Channel 2 of the pixel before pixel `k`, as the scratch array carries it into pixel `k`. */
  function CarriedChannel2(data: seq<byte>, p2: byte, k: nat): byte
    requires BytesPerPixel * k <= |data|
  {
    if k == 0 then p2 else Channel(data, k - 1, 2)
  }

  /**
    The value the sweep leaves in channel `i` of pixel `k`, in closed form.
    `p1` and `p2` are the channels 1 and 2 the scratch array holds before
    the first pixel.
   */
  function SweptChannel(data: seq<byte>, p1: byte, p2: byte, k: nat, i: nat): byte
    requires BytesPerPixel * k + BytesPerPixel <= |data| && i < BytesPerPixel
  {
    var c0, c1, c2 := Channel(data, k, 0), Channel(data, k, 1), Channel(data, k, 2);
    if i == 0 then Avg3(c0, CarriedChannel1(data, p1, k), CarriedChannel2(data, p2, k))
    else if i == 1 then Avg3(c0, c1, CarriedChannel2(data, p2, k))
    else if i == 2 then Avg3(c0, c1, c2)
    else Channel(data, k, Alpha)
  }

  /**
    The sweep as a left-to-right fold over pixels, carrying the scratch
    array's channels 1 and 2 from one pixel to the next.
   */
  function Sweep(data: seq<byte>, p1: byte, p2: byte): (r: seq<byte>)
    requires |data| % BytesPerPixel == 0
    ensures |r| == |data|
    decreases |data|
  {
    if |data| == 0 then []
    else
      var c0, c1, c2, a := data[0], data[1], data[2], data[3];
      [Avg3(c0, p1, p2), Avg3(c0, c1, p2), Avg3(c0, c1, c2), a] + Sweep(data[BytesPerPixel..], c1, c2)
  }

  /** Dropping one whole pixel from a buffer of whole pixels leaves whole pixels. */
  lemma RemainderAfterPixel(n: nat)
    requires n % BytesPerPixel == 0 && n >= BytesPerPixel
    ensures (n - BytesPerPixel) % BytesPerPixel == 0
  {
    var m := n / BytesPerPixel;
    assert n - BytesPerPixel == BytesPerPixel * (m - 1);
  }

  /** The fold computes the closed form `SweptChannel` in every channel of every pixel. */
  lemma SweepChannels(data: seq<byte>, p1: byte, p2: byte)
    requires |data| % BytesPerPixel == 0
    ensures forall k, i | 0 <= k && 0 <= i < BytesPerPixel && BytesPerPixel * k + BytesPerPixel <= |data| ::
              Channel(Sweep(data, p1, p2), k, i) == SweptChannel(data, p1, p2, k, i)
  {
    forall k, i | 0 <= k && 0 <= i < BytesPerPixel && BytesPerPixel * k + BytesPerPixel <= |data|
      ensures Channel(Sweep(data, p1, p2), k, i) == SweptChannel(data, p1, p2, k, i)
    {
      SweepChannel(data, p1, p2, k, i);
    }
  }

  /** Channel `i` of pixel `k` of the fold, by induction on `k`. */
  lemma {:induction false} SweepChannel(data: seq<byte>, p1: byte, p2: byte, k: nat, i: nat)
    requires |data| % BytesPerPixel == 0 && i < BytesPerPixel && BytesPerPixel * k + BytesPerPixel <= |data|
    ensures Channel(Sweep(data, p1, p2), k, i) == SweptChannel(data, p1, p2, k, i)
    decreases k
  {
    var rest, c0, c1, c2 := data[BytesPerPixel..], data[0], data[1], data[2];
    var head := [Avg3(c0, p1, p2), Avg3(c0, c1, p2), Avg3(c0, c1, c2), data[3]];
    RemainderAfterPixel(|data|);
    assert Sweep(data, p1, p2) == head + Sweep(rest, c1, c2);
    if k == 0 {
      assert Channel(Sweep(data, p1, p2), k, i) == head[i];
    } else {
      SweepChannel(rest, c1, c2, k - 1, i);
      assert Channel(Sweep(data, p1, p2), k, i) == Channel(Sweep(rest, c1, c2), k - 1, i);
      assert SweptChannel(rest, c1, c2, k - 1, i) == SweptChannel(data, p1, p2, k, i);
    }
  }

  /** The facts the sweep keeps about the buffer and the scratch array once its first `n` pixels are done. */
  ghost predicate SweptUpTo(orig: seq<byte>, data: seq<byte>, n: nat, bgra: seq<int>)
    requires |orig| % BytesPerPixel == 0
  {
    && BytesPerPixel * n <= |orig|
    && |data| == |orig| && |bgra| == 4
    && (forall k, i | 0 <= k < n && 0 <= i < BytesPerPixel :: Channel(data, k, i) == SweptChannel(orig, 0, 0, k, i))
    && (forall k, i | n <= k && 0 <= i < BytesPerPixel && BytesPerPixel * k + i < |orig| ::
          Channel(data, k, i) == Channel(orig, k, i))
    && bgra[1] == CarriedChannel1(orig, 0, n)
    && bgra[2] == CarriedChannel2(orig, 0, n)
  }

  /**
    The inner loop on one pixel at byte `p`: channel i is read into scratch
    slot i and at once overwritten with the average of slots 0..2, for i in
    0, 1, 2. Slots 1 and 2 still hold what an earlier pixel left in them
    when channels 0 and 1 are averaged.
   */
  method AveragePixel(data: seq<byte>, p: nat, bgra: seq<int>) returns (data': seq<byte>, bgra': seq<int>)
    requires p + BytesPerPixel <= |data| && |bgra| == 4
    requires 0 <= bgra[1] < 256 && 0 <= bgra[2] < 256
    ensures |data'| == |data| && |bgra'| == 4
    ensures forall j | 0 <= j < |data| && !(p <= j < p + Alpha) :: data'[j] == data[j]
    ensures data'[p] == (data[p] as int + bgra[1] + bgra[2]) / 3
    ensures data'[p + 1] == (data[p] as int + data[p + 1] + bgra[2]) / 3
    ensures data'[p + 2] == (data[p] as int + data[p + 1] + data[p + 2]) / 3
    ensures bgra'[1] == data[p + 1] && bgra'[2] == data[p + 2]
  {
    data', bgra' := data, bgra;
    for i := 0 to |bgra'| - 1
      invariant |bgra'| == 4 && |data'| == |data|
      invariant forall j | 0 <= j < |data| && !(p <= j < p + i) :: data'[j] == data[j]
      invariant forall m | 0 <= m < i :: bgra'[m] == data[p + m]
      invariant forall m | i <= m < 4 :: bgra'[m] == bgra[m]
      invariant forall m | 0 <= m < i :: data'[p + m] == SlotAverage(data, p, bgra, m)
    {
      bgra' := bgra'[i := data'[p + i]];
      var average := (bgra'[0] + bgra'[1] + bgra'[2]) / 3;
      assert average == SlotAverage(data, p, bgra, i);
      data' := data'[p + i := average];
    }
    assert data'[p] == SlotAverage(data, p, bgra, 0);
    assert data'[p + 1] == SlotAverage(data, p, bgra, 1);
    assert data'[p + 2] == SlotAverage(data, p, bgra, 2);
  }

  /** What the inner loop writes into channel `m` of the pixel at byte `p`. */
  function SlotAverage(data: seq<byte>, p: nat, bgra: seq<int>, m: nat): byte
    requires p + BytesPerPixel <= |data| && |bgra| == 4
    requires 0 <= bgra[1] < 256 && 0 <= bgra[2] < 256
  {
    var b1 := if m >= 1 then data[p + 1] as int else bgra[1];
    var b2 := if m >= 2 then data[p + 2] as int else bgra[2];
    (data[p] as int + b1 + b2) / 3
  }

  /** One pixel of the sweep: pixel `n` gets its closed form, and the scratch array carries its channels on. */
  method SweepPixel(orig: seq<byte>, data: seq<byte>, n: nat, bgra: seq<int>) returns (data': seq<byte>, bgra': seq<int>)
    requires |orig| % BytesPerPixel == 0 && BytesPerPixel * n + BytesPerPixel <= |orig|
    requires SweptUpTo(orig, data, n, bgra)
    ensures SweptUpTo(orig, data', n + 1, bgra')
  {
    var p := BytesPerPixel * n;
    assert data[p] == Channel(orig, n, 0) && data[p + 1] == Channel(orig, n, 1) && data[p + 2] == Channel(orig, n, 2);
    data', bgra' := AveragePixel(data, p, bgra);
    forall k, i | 0 <= k < n + 1 && 0 <= i < BytesPerPixel
      ensures Channel(data', k, i) == SweptChannel(orig, 0, 0, k, i)
    {
      if k == n && i == Alpha {
        assert Channel(data', k, i) == Channel(data, k, i);
      } else if k < n {
        assert Channel(data', k, i) == Channel(data, k, i);
      }
    }
    forall k, i | n + 1 <= k && 0 <= i < BytesPerPixel && BytesPerPixel * k + i < |orig|
      ensures Channel(data', k, i) == Channel(orig, k, i)
    {
      assert Channel(data', k, i) == Channel(data, k, i);
    }
  }

  /** One row of the sweep: `width` pixels starting at pixel `n`. */
  method SweepRow(orig: seq<byte>, data: seq<byte>, n: nat, bgra: seq<int>, width: nat)
    returns (data': seq<byte>, bgra': seq<int>)
    requires |orig| % BytesPerPixel == 0 && BytesPerPixel * (n + width) <= |orig|
    requires SweptUpTo(orig, data, n, bgra)
    ensures SweptUpTo(orig, data', n + width, bgra')
  {
    data', bgra' := data, bgra;
    for w := 0 to width
      invariant SweptUpTo(orig, data', n + w, bgra')
    {
      data', bgra' := SweepPixel(orig, data', n + w, bgra');
    }
  }

  /** Once every pixel is done, the buffer holds the fold's result. */
  lemma SweptAll(orig: seq<byte>, data: seq<byte>, n: nat, bgra: seq<int>)
    requires |orig| % BytesPerPixel == 0 && BytesPerPixel * n == |orig|
    requires SweptUpTo(orig, data, n, bgra)
    ensures data == Sweep(orig, 0, 0)
  {
    SweepChannels(orig, 0, 0);
    ChannelsDetermine(data, Sweep(orig, 0, 0));
  }

  /** Before the first pixel nothing is swept and the scratch array holds zeros. */
  lemma SweepStart(orig: seq<byte>)
    requires |orig| % BytesPerPixel == 0
    ensures SweptUpTo(orig, orig, 0, [0, 0, 0, 0])
  {
  }

  /** Row `h` of a `width` by `height` image ends one row after it starts, and no later than the image does. */
  lemma RowStep(width: nat, height: nat, h: nat)
    requires h < height
    ensures RowStart(width, h + 1) == RowStart(width, h) + width * BytesPerPixel
    ensures RowStart(width, h + 1) <= width * height * BytesPerPixel
  {
    RowStartIsProduct(width, height);
    if h + 1 < height {
      RowStartMonotone(width, h + 1, height);
    }
    assert height * width == width * height;
  }

  /** The last row of a `width` by `height` image ends where the buffer does. */
  lemma ImageEnd(width: nat, height: nat)
    ensures RowStart(width, height) == width * height * BytesPerPixel
  {
    RowStartIsProduct(width, height);
    assert height * width == width * height;
  }

  /**
    The sweep as `ConvertToGreyscaleFast` writes it: rows, then pixels within a row, with a
    pointer advancing one pixel at a time and one scratch array for the
    whole image. The result is the fold `Sweep` started with a zeroed
    scratch array.
   */
  method ConvertToGreyscaleFast(img: Image) returns (out: Image)
    requires ValidImage(img)
    ensures ValidImage(out) && out.width == img.width && out.height == img.height
    ensures out.data == Sweep(img.data, 0, 0)
  {
    var data := img.data;
    var bgra: seq<int> := [0, 0, 0, 0];
    var n: nat := 0;
    SweepStart(img.data);
    for h := 0 to img.height
      invariant BytesPerPixel * n == RowStart(img.width, h)
      invariant SweptUpTo(img.data, data, n, bgra)
    {
      RowStep(img.width, img.height, h);
      data, bgra := SweepRow(img.data, data, n, bgra, img.width);
      n := n + img.width;
    }
    ImageEnd(img.width, img.height);
    SweptAll(img.data, data, n, bgra);
    out := Image(img.width, img.height, data);
  }

  /**
    Per-pixel rule of the whole sweep: with c0, c1, c2 pixel k's original
    channels and q1, q2 the previous pixel's original channels 1 and 2
    (zero for the first pixel), the outputs are (c0+q1+q2)/3, (c0+c1+q2)/3,
    (c0+c1+c2)/3 and the unchanged alpha.
   */
  lemma SweepPixelRule(data: seq<byte>, k: nat)
    requires |data| % BytesPerPixel == 0 && BytesPerPixel * k + BytesPerPixel <= |data|
    ensures var r := Sweep(data, 0, 0);
      var c0, c1, c2 := Channel(data, k, 0), Channel(data, k, 1), Channel(data, k, 2);
      var q1, q2 := if k == 0 then 0 else Channel(data, k - 1, 1), if k == 0 then 0 else Channel(data, k - 1, 2);
      && Channel(r, k, 0) == (c0 + q1 + q2) / 3
      && Channel(r, k, 1) == (c0 + c1 + q2) / 3
      && Channel(r, k, 2) == (c0 + c1 + c2) / 3
      && Channel(r, k, Alpha) == Channel(data, k, Alpha)
  {
    SweepChannels(data, 0, 0);
  }

  /** The sweep keeps the buffer's length and every alpha byte; it only writes channels 0..2. */
  lemma SweepKeepsAlpha(data: seq<byte>)
    requires |data| % BytesPerPixel == 0
    ensures |Sweep(data, 0, 0)| == |data|
    ensures forall k | 0 <= k && BytesPerPixel * k + BytesPerPixel <= |data| ::
              Channel(Sweep(data, 0, 0), k, Alpha) == Channel(data, k, Alpha)
  {
    SweepChannels(data, 0, 0);
  }

  /** Every pixel of a buffer has the colour channels of the first. */
  ghost predicate UniformColour(data: seq<byte>) {
    forall k, i | 0 <= k && 0 <= i < Alpha && BytesPerPixel * k + i < |data| :: Channel(data, k, i) == data[i]
  }

  /**
    In a buffer whose pixels all share one colour, every pixel after the
    first receives the true floor average in all three channels; the first
    pixel does not, because the scratch array starts at zero.
   */
  lemma SweepUniform(data: seq<byte>, k: nat)
    requires |data| % BytesPerPixel == 0 && UniformColour(data)
    requires 1 <= k && BytesPerPixel * k + BytesPerPixel <= |data|
    ensures var r, v := Sweep(data, 0, 0), Avg3(data[0], data[1], data[2]);
      Channel(r, k, 0) == v && Channel(r, k, 1) == v && Channel(r, k, 2) == v
  {
    SweepChannels(data, 0, 0);
    assert Channel(data, k, 0) == data[0] && Channel(data, k, 1) == data[1] && Channel(data, k, 2) == data[2];
    assert Channel(data, k - 1, 1) == data[1] && Channel(data, k - 1, 2) == data[2];
  }

  /**
    The sweep is not idempotent: one pixel (10, 20, 30, a) becomes
    (3, 10, 20, a) after one pass and (1, 4, 11, a) after a second.
   */
  lemma SweepNotIdempotent(a: byte)
    ensures Sweep([10, 20, 30, a], 0, 0) == [3, 10, 20, a]
    ensures Sweep(Sweep([10, 20, 30, a], 0, 0), 0, 0) == [1, 4, 11, a]
    ensures Sweep(Sweep([10, 20, 30, a], 0, 0), 0, 0) != Sweep([10, 20, 30, a], 0, 0)
  {
    var once := Sweep([10, 20, 30, a], 0, 0);
    SweepChannels([10, 20, 30, a], 0, 0);
    assert once == [3, 10, 20, a] by {
      ChannelsDetermine(once, [3, 10, 20, a]);
    }
    var twice := Sweep(once, 0, 0);
    SweepChannels(once, 0, 0);
    assert twice == [1, 4, 11, a] by {
      ChannelsDetermine(twice, [1, 4, 11, a]);
    }
  }

  /**
    The evidently intended transform: every pixel's three colour channels
    replaced by the floor average of that pixel's own channels, alpha kept.
   */
  function CleanSweep(data: seq<byte>): (r: seq<byte>)
    requires |data| % BytesPerPixel == 0
    ensures |r| == |data|
    decreases |data|
  {
    if |data| == 0 then []
    else
      var v := Avg3(data[0], data[1], data[2]);
      [v, v, v, data[3]] + CleanSweep(data[BytesPerPixel..])
  }

  /** The corrected value of channel `i` of pixel `k`: the pixel's own average, or its alpha. */
  function CleanChannel(data: seq<byte>, k: nat, i: nat): byte
    requires BytesPerPixel * k + BytesPerPixel <= |data| && i < BytesPerPixel
  {
    if i == Alpha then Channel(data, k, Alpha)
    else Avg3(Channel(data, k, 0), Channel(data, k, 1), Channel(data, k, 2))
  }

  /** The corrected transform writes each pixel's own average into its colour channels and keeps alpha. */
  lemma CleanSweepChannels(data: seq<byte>)
    requires |data| % BytesPerPixel == 0
    ensures forall k, i | 0 <= k && 0 <= i < BytesPerPixel && BytesPerPixel * k + BytesPerPixel <= |data| ::
              Channel(CleanSweep(data), k, i) == CleanChannel(data, k, i)
  {
    forall k, i | 0 <= k && 0 <= i < BytesPerPixel && BytesPerPixel * k + BytesPerPixel <= |data|
      ensures Channel(CleanSweep(data), k, i) == CleanChannel(data, k, i)
    {
      CleanSweepChannel(data, k, i);
    }
  }

  /** Channel `i` of pixel `k` of the corrected transform, by induction on `k`. */
  lemma {:induction false} CleanSweepChannel(data: seq<byte>, k: nat, i: nat)
    requires |data| % BytesPerPixel == 0 && i < BytesPerPixel && BytesPerPixel * k + BytesPerPixel <= |data|
    ensures Channel(CleanSweep(data), k, i) == CleanChannel(data, k, i)
    decreases k
  {
    if k == 0 {
      CleanSweepFirst(data, i);
    } else {
      CleanSweepShift(data, k, i);
      CleanSweepChannel(data[BytesPerPixel..], k - 1, i);
    }
  }

  /** The first pixel of the corrected transform, one channel at a time. */
  lemma CleanSweepFirst(data: seq<byte>, i: nat)
    requires |data| % BytesPerPixel == 0 && BytesPerPixel <= |data| && i < BytesPerPixel
    ensures Channel(CleanSweep(data), 0, i) == CleanChannel(data, 0, i)
  {
    CleanSweepHead(data);
  }

  /** The first pixel of the corrected transform holds the pixel's average three times, then its alpha. */
  lemma CleanSweepHead(data: seq<byte>)
    requires |data| % BytesPerPixel == 0 && BytesPerPixel <= |data|
    ensures var c, v := CleanSweep(data), Avg3(data[0], data[1], data[2]);
      c[0] == v && c[1] == v && c[2] == v && c[3] == data[3]
  {
    RemainderAfterPixel(|data|);
  }

  /** Pixel `k` of the corrected transform is pixel `k - 1` of the transform of the rest. */
  lemma CleanSweepShift(data: seq<byte>, k: nat, i: nat)
    requires |data| % BytesPerPixel == 0 && 0 < k && i < BytesPerPixel && BytesPerPixel * k + BytesPerPixel <= |data|
    ensures |data[BytesPerPixel..]| % BytesPerPixel == 0
    ensures Channel(CleanSweep(data), k, i) == Channel(CleanSweep(data[BytesPerPixel..]), k - 1, i)
    ensures CleanChannel(data, k, i) == CleanChannel(data[BytesPerPixel..], k - 1, i)
  {
    var rest := data[BytesPerPixel..];
    RemainderAfterPixel(|data|);
    assert CleanSweep(data)[BytesPerPixel..] == CleanSweep(rest);
  }

  /** The corrected transform turns (10, 20, 30, 255) into (20, 20, 20, 255). */
  lemma CleanSweepExample()
    ensures CleanSweep([10, 20, 30, 255]) == [20, 20, 20, 255]
  {
    CleanSweepChannels([10, 20, 30, 255]);
    ChannelsDetermine(CleanSweep([10, 20, 30, 255]), [20, 20, 20, 255]);
  }

  /** Applying the corrected transform twice is the same as applying it once. */
  lemma CleanSweepIdempotent(data: seq<byte>)
    requires |data| % BytesPerPixel == 0
    ensures CleanSweep(CleanSweep(data)) == CleanSweep(data)
  {
    var once := CleanSweep(data);
    CleanSweepChannels(data);
    CleanSweepChannels(once);
    forall k, i | 0 <= i < BytesPerPixel && BytesPerPixel * k + i < |once|
      ensures Channel(CleanSweep(once), k, i) == Channel(once, k, i)
    {
      WholePixel(|data|, k, i);
      if i != Alpha {
        var v := CleanChannel(data, k, 0);
        assert Channel(once, k, 0) == v && Channel(once, k, 1) == v && Channel(once, k, 2) == v;
        assert Avg3(v, v, v) == v;
      }
    }
    ChannelsDetermine(CleanSweep(once), once);
  }

  /**
    The sweep as written agrees with the corrected transform on channel 2
    and alpha of every pixel, and, in a buffer uniform in colour, on every
    channel of every pixel but the first.
   */
  lemma SweepMatchesClean(data: seq<byte>)
    requires |data| % BytesPerPixel == 0
    ensures forall k, i | 0 <= k && 2 <= i < BytesPerPixel && BytesPerPixel * k + BytesPerPixel <= |data| ::
              Channel(Sweep(data, 0, 0), k, i) == Channel(CleanSweep(data), k, i)
    ensures UniformColour(data) ==>
              forall k, i | 1 <= k && 0 <= i < BytesPerPixel && BytesPerPixel * k + BytesPerPixel <= |data| ::
                Channel(Sweep(data, 0, 0), k, i) == Channel(CleanSweep(data), k, i)
  {
    SweepChannels(data, 0, 0);
    CleanSweepChannels(data);
    if UniformColour(data) {
      forall k | 1 <= k && BytesPerPixel * k + BytesPerPixel <= |data| {
        SweepUniform(data, k);
      }
    }
  }
}
