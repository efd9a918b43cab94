/**
 * The transform engine. An `ImageTransformer` wraps one source image, a height x width
 * grid of packed pixels indexed [row, column]; every operation allocates a fresh output
 * image of the same size, fills it with nested loops and never changes the source.
 */
module Transformer {
  import opened Pixels
  import opened Grid
  import opened Lists
  import opened Wrappers
  import opened Regions

  const POSTER_0_64: Byte := 32
  const POSTER_65_128: Byte := 96
  const POSTER_129_255: Byte := 222
  const POSTER_LOW := 64
  const POSTER_MID := 128

  // ----- per-pixel channel maps -----

  /** What `red` writes for one pixel: alpha and red kept, green and blue cleared. */
  function RedPixel(p: Int32): (q: Int32)
    ensures Alpha(q) == Alpha(p) && Red(q) == Red(p) && Green(q) == 0 && Blue(q) == 0
  {
    Pack(Colour(Alpha(p), Red(p), 0, 0))
  }

  /** Clearing green and blue a second time changes nothing. */
  lemma RedIdempotent(p: Int32)
    ensures RedPixel(RedPixel(p)) == RedPixel(p)
  {
    PackInjective(Colour(Alpha(p), Red(p), 0, 0), Unpack(RedPixel(p)));
    PackUnpack(RedPixel(p));
  }

  /** What `negative` writes for one pixel: alpha kept, each colour channel c becomes 255 - c. */
  function NegativePixel(p: Int32): (q: Int32)
    ensures Alpha(q) == Alpha(p)
    ensures Red(q) == MAX_COLOUR_VALUE - Red(p)
    ensures Green(q) == MAX_COLOUR_VALUE - Green(p)
    ensures Blue(q) == MAX_COLOUR_VALUE - Blue(p)
  {
    Pack(Colour(Alpha(p), MAX_COLOUR_VALUE - Red(p), MAX_COLOUR_VALUE - Green(p), MAX_COLOUR_VALUE - Blue(p)))
  }

  /** The negative of the negative is the original pixel, alpha included. */
  lemma NegativeInvolution(p: Int32)
    ensures NegativePixel(NegativePixel(p)) == p
  {
    var q := NegativePixel(NegativePixel(p));
    assert Unpack(q) == Unpack(p);
    PackUnpack(p);
    PackUnpack(q);
  }

  /** `calculatePosterizeColour`: three bands with the thresholds 64 and 128 inclusive. */
  function CalculatePosterizeColour(colour: int): (r: Byte)
    ensures r == POSTER_0_64 || r == POSTER_65_128 || r == POSTER_129_255
  {
    if colour <= POSTER_LOW then POSTER_0_64
    else if colour <= POSTER_MID then POSTER_65_128
    else POSTER_129_255
  }

  /** A brighter channel never gets a darker level. */
  lemma PosterizeMonotone(a: int, b: int)
    requires a <= b
    ensures CalculatePosterizeColour(a) <= CalculatePosterizeColour(b)
  {
  }

  /** The band edges behave as the boundary test expects. */
  lemma PosterizeBoundaries()
    ensures CalculatePosterizeColour(0) == 32 && CalculatePosterizeColour(64) == 32
    ensures CalculatePosterizeColour(65) == 96 && CalculatePosterizeColour(128) == 96
    ensures CalculatePosterizeColour(129) == 222 && CalculatePosterizeColour(255) == 222
  {
  }

  /** What `posterize` writes for one pixel: opaque, each colour channel banded. */
  function PosterizePixel(p: Int32): (q: Int32)
    ensures Alpha(q) == DEFAULT_ALPHA
    ensures Red(q) == CalculatePosterizeColour(Red(p))
    ensures Green(q) == CalculatePosterizeColour(Green(p))
    ensures Blue(q) == CalculatePosterizeColour(Blue(p))
  {
    Pack(Colour(DEFAULT_ALPHA, CalculatePosterizeColour(Red(p)),
                CalculatePosterizeColour(Green(p)), CalculatePosterizeColour(Blue(p))))
  }

  /** The band values 32, 96 and 222 are fixed points, so posterizing twice is posterizing once. */
  lemma PosterizeIdempotent(p: Int32)
    ensures PosterizePixel(PosterizePixel(p)) == PosterizePixel(p)
  {
    var once := PosterizePixel(p);
    var twice := PosterizePixel(once);
    assert Unpack(twice) == Unpack(once);
    PackUnpack(once);
    PackUnpack(twice);
  }

  // ----- neighbourhoods -----

  /**
   * The colours `getPixelNeighbourhood` collects for the cell p while it walks the
   * offsets `dirs` in order: the colour at p + d for each d that stays inside the pic.
   */
  function NeighbourColours(pic: Picture, p: Point, dirs: seq<Point>): seq<Colour>
    decreases |dirs|
  {
    if dirs == [] then []
    else
      var rest := NeighbourColours(pic, p, dirs[..|dirs| - 1]);
      var q := Step(p, dirs[|dirs| - 1]);
      if InBounds(Height(pic), Width(pic), q) then rest + [Unpack(At(pic, q.0, q.1))] else rest
  }

  /** The collected colours are those of the in-bounds cells `InBoundsSteps` lists. */
  lemma {:induction false} NeighbourColoursAtCells(pic: Picture, p: Point, dirs: seq<Point>)
    ensures var cells := InBoundsSteps(Height(pic), Width(pic), p, dirs);
      var ns := NeighbourColours(pic, p, dirs);
      |ns| == |cells| &&
      forall k :: 0 <= k < |cells| ==>
        InBounds(Height(pic), Width(pic), cells[k]) && ns[k] == Unpack(At(pic, cells[k].0, cells[k].1))
  {
    if dirs != [] {
      NeighbourColoursAtCells(pic, p, dirs[..|dirs| - 1]);
    }
  }

  /**
   * `getPixelNeighbourhood(row, col)`: the colours of the cell and of its 8-neighbours,
   * those outside the pic left out. For a pixel of the pic the list starts with the
   * pixel's own colour and has one to nine entries.
   */
  function Neighbourhood(pic: Picture, row: int, col: int): (ns: seq<Colour>)
    ensures |ns| <= 9
    ensures InBounds(Height(pic), Width(pic), (row, col)) ==>
              |ns| >= 1 && ns[0] == Unpack(At(pic, row, col))
  {
    NeighbourColoursAtCells(pic, (row, col), Directions);
    InBoundsStepsDistinct(Height(pic), Width(pic), (row, col), Directions);
    if InBounds(Height(pic), Width(pic), (row, col)) then
      NeighbourhoodShape(Height(pic), Width(pic), (row, col));
      NeighbourColours(pic, (row, col), Directions)
    else
      NeighbourColours(pic, (row, col), Directions)
  }

  /** Each entry of the neighbourhood is the colour of an in-bounds cell at most one step away. */
  lemma NeighbourhoodCells(pic: Picture, row: int, col: int, k: int)
    requires 0 <= k < |Neighbourhood(pic, row, col)|
    ensures |InBoundsSteps(Height(pic), Width(pic), (row, col), Directions)| == |Neighbourhood(pic, row, col)|
    ensures var q := InBoundsSteps(Height(pic), Width(pic), (row, col), Directions)[k];
      InBounds(Height(pic), Width(pic), q) && Near((row, col), q) &&
      Neighbourhood(pic, row, col)[k] == Unpack(At(pic, q.0, q.1))
  {
    var cells := InBoundsSteps(Height(pic), Width(pic), (row, col), Directions);
    NeighbourColoursAtCells(pic, (row, col), Directions);
    InBoundsStepsSound(Height(pic), Width(pic), (row, col), Directions, cells[k]);
  }

  function Reds(ns: seq<Colour>): seq<Byte> { seq(|ns|, k requires 0 <= k < |ns| => ns[k].red) }
  function Greens(ns: seq<Colour>): seq<Byte> { seq(|ns|, k requires 0 <= k < |ns| => ns[k].green) }
  function Blues(ns: seq<Colour>): seq<Byte> { seq(|ns|, k requires 0 <= k < |ns| => ns[k].blue) }

  /** The loop of `denoise` and `weather` that splits a neighbourhood into three channel lists. */
  method ChannelLists(ns: seq<Colour>) returns (reds: seq<int>, greens: seq<int>, blues: seq<int>)
    ensures reds == Reds(ns) && greens == Greens(ns) && blues == Blues(ns)
  {
    reds, greens, blues := [], [], [];
    for k := 0 to |ns|
      invariant reds == Reds(ns[..k]) && greens == Greens(ns[..k]) && blues == Blues(ns[..k])
    {
      var pixel := ns[k];
      reds := reds + [pixel.red];
      greens := greens + [pixel.green];
      blues := blues + [pixel.blue];
    }
    assert ns[..|ns|] == ns;
  }

  // ----- median and minimum -----

  /** Java's `x / 2` on an `int`: the half of x rounded toward zero. */
  function JavaHalf(x: int): (q: int)
    ensures x >= 0 ==> x - 1 <= 2 * q <= x
    ensures x < 0 ==> x <= 2 * q <= x + 1
  {
    if x >= 0 then x / 2 else -((-x) / 2)
  }

  /**
   * The middle of a sorted list: its middle element, or the mean of the two middle ones
   * rounded toward zero.
   */
  function Middle(sorted: seq<int>): int
    requires |sorted| > 0
  {
    var n := |sorted|;
    if n % 2 != 0 then sorted[n / 2] else JavaHalf(sorted[(n - 1) / 2] + sorted[n / 2])
  }

  /** `median`: the middle of the list once sorted. */
  ghost function Median(pixels: seq<int>): int
    requires |pixels| > 0
  {
    var sorted := SortedPermutation(pixels);
    assert |sorted| == |pixels| by {
      assert |multiset(sorted)| == |sorted| && |multiset(pixels)| == |pixels|;
    }
    Middle(sorted)
  }

  /**
   * The median lies between the least and the largest entry, and for an odd number of
   * entries it is one of them.
   */
  lemma MedianBounds(pixels: seq<int>)
    requires |pixels| > 0
    ensures Min(pixels) <= Median(pixels) <= Max(pixels)
    ensures |pixels| % 2 == 1 ==> Median(pixels) in pixels
  {
    var sorted := SortedPermutation(pixels);
    assert |sorted| == |pixels| by {
      assert |multiset(sorted)| == |sorted| && |multiset(pixels)| == |pixels|;
    }
    PermutationWithin(pixels, sorted);
    var n := |sorted|;
    if n % 2 == 0 {
      var a, b := sorted[(n - 1) / 2], sorted[n / 2];
      assert Min(pixels) <= a && b <= Max(pixels);
      assert a <= b;
      assert a <= JavaHalf(a + b) <= b;
    }
  }

  /** The median does not depend on which sorting algorithm `Collections.sort` uses. */
  lemma MedianOfAnySortedPermutation(pixels: seq<int>, sorted: seq<int>)
    requires |pixels| > 0 && |sorted| == |pixels|
    requires IsSorted(sorted) && multiset(sorted) == multiset(pixels)
    ensures Median(pixels) == Middle(sorted)
  {
    SortedUnique(SortedPermutation(pixels), sorted);
  }

  /** `median`: sorts the list (as `Collections.sort` does) and takes its middle. */
  method MedianOfList(pixels: seq<int>) returns (m: int)
    requires |pixels| > 0
    ensures m == Median(pixels)
  {
    var sorted := Sort(pixels);
    assert |sorted| == |pixels| by {
      assert |multiset(sorted)| == |sorted| && |multiset(pixels)| == |pixels|;
    }
    MedianOfAnySortedPermutation(pixels, sorted);
    var numPixels := |sorted|;
    if numPixels % 2 != 0 {
      return sorted[numPixels / 2];
    }
    return JavaHalf(sorted[(numPixels - 1) / 2] + sorted[numPixels / 2]);
  }

  lemma MinMaxOfBytes(s: seq<Byte>)
    requires |s| > 0
    ensures 0 <= Min(s) && Max(s) <= 255
  {
    var m := Min(s);
    var k :| 0 <= k < |s| && s[k] == m;
    var n := Max(s);
    var l :| 0 <= l < |s| && s[l] == n;
  }

  /** What `denoise` writes: the channel-wise median of the neighbourhood, opaque. */
  ghost function DenoisedColour(ns: seq<Colour>): Colour
    requires |ns| > 0
  {
    MinMaxOfBytes(Reds(ns));
    MinMaxOfBytes(Greens(ns));
    MinMaxOfBytes(Blues(ns));
    MedianBounds(Reds(ns));
    MedianBounds(Greens(ns));
    MedianBounds(Blues(ns));
    Colour(DEFAULT_ALPHA, Median(Reds(ns)), Median(Greens(ns)), Median(Blues(ns)))
  }

  /** What `weather` writes: the channel-wise minimum of the neighbourhood, opaque. */
  function WeatheredColour(ns: seq<Colour>): Colour
    requires |ns| > 0
  {
    MinMaxOfBytes(Reds(ns));
    MinMaxOfBytes(Greens(ns));
    MinMaxOfBytes(Blues(ns));
    Colour(DEFAULT_ALPHA, Min(Reds(ns)), Min(Greens(ns)), Min(Blues(ns)))
  }

  /** The pixel `denoise` writes at (row, col). */
  ghost function DenoisedPixel(pic: Picture, row: int, col: int): Int32
    requires InBounds(Height(pic), Width(pic), (row, col))
  {
    Pack(DenoisedColour(Neighbourhood(pic, row, col)))
  }

  /** The pixel `weather` writes at (row, col). */
  function WeatheredPixel(pic: Picture, row: int, col: int): Int32
    requires InBounds(Height(pic), Width(pic), (row, col))
  {
    Pack(WeatheredColour(Neighbourhood(pic, row, col)))
  }

  // ----- block painting -----

  datatype Channel = RedChannel | GreenChannel | BlueChannel

  function ChannelOf(p: int, ch: Channel): Byte
  {
    match ch
    case RedChannel => Red(p)
    case GreenChannel => Green(p)
    case BlueChannel => Blue(p)
  }

  /** One channel summed over `cols` pixels of row `r`, starting at column `c0`. */
  function RowSum(pic: Picture, r: int, c0: int, cols: nat, ch: Channel): int
    requires 0 <= r < Height(pic) && 0 <= c0 && c0 + cols <= Width(pic)
  {
    if cols == 0 then 0
    else RowSum(pic, r, c0, cols - 1, ch) + ChannelOf(At(pic, r, c0 + cols - 1), ch)
  }

  /** One channel summed over the `rows` x `cols` block whose top-left cell is (r0, c0). */
  function BlockSum(pic: Picture, r0: int, c0: int, rows: nat, cols: nat, ch: Channel): int
    requires 0 <= r0 && r0 + rows <= Height(pic) && 0 <= c0 && c0 + cols <= Width(pic)
  {
    if rows == 0 then 0
    else BlockSum(pic, r0, c0, rows - 1, cols, ch) + RowSum(pic, r0 + rows - 1, c0, cols, ch)
  }

  lemma {:induction false} RowSumBounds(pic: Picture, r: int, c0: int, cols: nat, ch: Channel)
    requires 0 <= r < Height(pic) && 0 <= c0 && c0 + cols <= Width(pic)
    ensures 0 <= RowSum(pic, r, c0, cols, ch) <= 255 * cols
  {
    if cols > 0 {
      RowSumBounds(pic, r, c0, cols - 1, ch);
    }
  }

  lemma {:induction false} BlockSumBounds(pic: Picture, r0: int, c0: int, rows: nat, cols: nat, ch: Channel)
    requires 0 <= r0 && r0 + rows <= Height(pic) && 0 <= c0 && c0 + cols <= Width(pic)
    ensures 0 <= BlockSum(pic, r0, c0, rows, cols, ch) <= 255 * (rows * cols)
  {
    if rows > 0 {
      BlockSumBounds(pic, r0, c0, rows - 1, cols, ch);
      RowSumBounds(pic, r0 + rows - 1, c0, cols, ch);
      assert (rows - 1) * cols + cols == rows * cols;
    }
  }

  /** The truncated mean of a sum of `n` channel values is again a channel value. */
  lemma MeanIsByte(sum: int, n: int)
    requires n >= 1 && 0 <= sum <= 255 * n
    ensures 0 <= sum / n <= 255
  {
    DivModUnique(sum, n, sum / n, sum % n);
  }

  /**
   * `getBlockRGBAverage`: the channel-wise truncated mean over the block, as an opaque
   * colour (what `new Color(r, g, b)` builds).
   */
  function BlockAverage(pic: Picture, r0: int, c0: int, rows: int, cols: int): (c: Colour)
    requires 0 <= r0 && r0 + rows <= Height(pic) && 0 <= c0 && c0 + cols <= Width(pic)
    requires rows >= 1 && cols >= 1
    ensures c.alpha == DEFAULT_ALPHA
  {
    var n := rows * cols;
    BlockSumBounds(pic, r0, c0, rows, cols, RedChannel);
    BlockSumBounds(pic, r0, c0, rows, cols, GreenChannel);
    BlockSumBounds(pic, r0, c0, rows, cols, BlueChannel);
    MeanIsByte(BlockSum(pic, r0, c0, rows, cols, RedChannel), n);
    MeanIsByte(BlockSum(pic, r0, c0, rows, cols, GreenChannel), n);
    MeanIsByte(BlockSum(pic, r0, c0, rows, cols, BlueChannel), n);
    Colour(DEFAULT_ALPHA,
           BlockSum(pic, r0, c0, rows, cols, RedChannel) / n,
           BlockSum(pic, r0, c0, rows, cols, GreenChannel) / n,
           BlockSum(pic, r0, c0, rows, cols, BlueChannel) / n)
  }

  function MinInt(a: int, b: int): int { if a <= b then a else b }

  /**
   * The colour `blockPaint(blockSize)` gives cell (r, c): the average of the block whose
   * corner is (r, c) rounded down to multiples of `blockSize`, clipped at the bottom and
   * right edges of the pic.
   */
  function BlockColour(pic: Picture, blockSize: int, r: int, c: int): Colour
    requires blockSize >= 1 && InBounds(Height(pic), Width(pic), (r, c))
  {
    var r0 := r - r % blockSize;
    var c0 := c - c % blockSize;
    BlockAverage(pic, r0, c0, MinInt(blockSize, Height(pic) - r0), MinInt(blockSize, Width(pic) - c0))
  }

  /** A cell lies in the block starting at the multiple of the block size below it. */
  lemma BlockOrigin(r: int, start: int, blockSize: int)
    requires blockSize >= 1 && start >= 0 && start % blockSize == 0 && start <= r < start + blockSize
    ensures r - r % blockSize == start
  {
    DivModUnique(start, blockSize, start / blockSize, 0);
    DivModUnique(r, blockSize, start / blockSize, r - start);
  }

  /** Cells of the same block are painted alike. */
  lemma SameBlockSameColour(pic: Picture, blockSize: int, r: int, c: int, r': int, c': int)
    requires blockSize >= 1
    requires InBounds(Height(pic), Width(pic), (r, c)) && InBounds(Height(pic), Width(pic), (r', c'))
    requires r / blockSize == r' / blockSize && c / blockSize == c' / blockSize
    ensures BlockColour(pic, blockSize, r, c) == BlockColour(pic, blockSize, r', c')
  {
    RoundDown(r, blockSize);
    RoundDown(r', blockSize);
    RoundDown(c, blockSize);
    RoundDown(c', blockSize);
    var r0, c0 := r - r % blockSize, c - c % blockSize;
    assert r0 == r' - r' % blockSize && c0 == c' - c' % blockSize;
  }

  lemma RoundDown(x: int, blockSize: int)
    requires blockSize >= 1
    ensures x - x % blockSize == blockSize * (x / blockSize)
  {
  }

  lemma {:induction false} RowSumUniform(pic: Picture, r: int, c0: int, cols: nat, ch: Channel, v: int)
    requires 0 <= r < Height(pic) && 0 <= c0 && c0 + cols <= Width(pic)
    requires forall c :: c0 <= c < c0 + cols ==> ChannelOf(At(pic, r, c), ch) == v
    ensures RowSum(pic, r, c0, cols, ch) == cols * v
  {
    if cols > 0 {
      RowSumUniform(pic, r, c0, cols - 1, ch, v);
    }
  }

  lemma {:induction false} BlockSumUniform(pic: Picture, r0: int, c0: int, rows: nat, cols: nat, ch: Channel, v: int)
    requires 0 <= r0 && r0 + rows <= Height(pic) && 0 <= c0 && c0 + cols <= Width(pic)
    requires forall r, c :: r0 <= r < r0 + rows && c0 <= c < c0 + cols ==> ChannelOf(At(pic, r, c), ch) == v
    ensures BlockSum(pic, r0, c0, rows, cols, ch) == rows * (cols * v)
  {
    if rows > 0 {
      BlockSumUniform(pic, r0, c0, rows - 1, cols, ch, v);
      RowSumUniform(pic, r0 + rows - 1, c0, cols, ch, v);
      var x := cols * v;
      assert (rows - 1) * x + x == rows * x;
    }
  }

  lemma {:induction false} BlockMeanUniform(pic: Picture, r0: int, c0: int, rows: int, cols: int, ch: Channel, v: Byte)
    requires 0 <= r0 && r0 + rows <= Height(pic) && 0 <= c0 && c0 + cols <= Width(pic)
    requires rows >= 1 && cols >= 1
    requires forall r, c :: r0 <= r < r0 + rows && c0 <= c < c0 + cols ==> ChannelOf(At(pic, r, c), ch) == v
    ensures BlockSum(pic, r0, c0, rows, cols, ch) / (rows * cols) == v
  {
    BlockSumUniform(pic, r0, c0, rows, cols, ch, v);
    var n := rows * cols;
    assert rows * (cols * v) == v * n by {
      assert rows * (cols * v) == (rows * cols) * v;
    }
    DivModUnique(v * n, n, v, 0);
  }

  /** The mean of a block of one colour is that colour (made opaque). */
  lemma BlockAverageUniform(pic: Picture, r0: int, c0: int, rows: int, cols: int, p: Int32)
    requires 0 <= r0 && r0 + rows <= Height(pic) && 0 <= c0 && c0 + cols <= Width(pic)
    requires rows >= 1 && cols >= 1
    requires forall r, c :: r0 <= r < r0 + rows && c0 <= c < c0 + cols ==> At(pic, r, c) == p
    ensures BlockAverage(pic, r0, c0, rows, cols) == Colour(DEFAULT_ALPHA, Red(p), Green(p), Blue(p))
  {
    BlockMeanUniform(pic, r0, c0, rows, cols, RedChannel, Red(p));
    BlockMeanUniform(pic, r0, c0, rows, cols, GreenChannel, Green(p));
    BlockMeanUniform(pic, r0, c0, rows, cols, BlueChannel, Blue(p));
  }

  // ----- what the neighbourhood filters promise -----

  lemma MedianUniform(s: seq<int>, v: int)
    requires |s| > 0 && forall k :: 0 <= k < |s| ==> s[k] == v
    ensures Median(s) == v
  {
    var lo := Min(s);
    var i :| 0 <= i < |s| && s[i] == lo;
    var hi := Max(s);
    var j :| 0 <= j < |s| && s[j] == hi;
    MedianBounds(s);
  }

  /** Every neighbour of a pixel of a one-colour pic has that colour. */
  lemma UniformNeighbourhood(pic: Picture, row: int, col: int, p: Int32)
    requires forall r, c :: 0 <= r < Height(pic) && 0 <= c < Width(pic) ==> At(pic, r, c) == p
    ensures forall k :: 0 <= k < |Neighbourhood(pic, row, col)| ==> Neighbourhood(pic, row, col)[k] == Unpack(p)
  {
    forall k | 0 <= k < |Neighbourhood(pic, row, col)|
      ensures Neighbourhood(pic, row, col)[k] == Unpack(p)
    {
      NeighbourhoodCells(pic, row, col, k);
    }
  }

  /** Denoising an opaque one-colour pic gives every pixel back unchanged. */
  lemma DenoiseUniform(pic: Picture, row: int, col: int, p: Int32)
    requires InBounds(Height(pic), Width(pic), (row, col))
    requires Alpha(p) == DEFAULT_ALPHA
    requires forall r, c :: 0 <= r < Height(pic) && 0 <= c < Width(pic) ==> At(pic, r, c) == p
    ensures Pack(DenoisedColour(Neighbourhood(pic, row, col))) == p
  {
    var ns := Neighbourhood(pic, row, col);
    UniformNeighbourhood(pic, row, col, p);
    MedianUniform(Reds(ns), Red(p));
    MedianUniform(Greens(ns), Green(p));
    MedianUniform(Blues(ns), Blue(p));
    assert DenoisedColour(ns) == Unpack(p);
    PackUnpack(p);
  }

  /** Each entry of a channel list comes from the neighbourhood at the same index. */
  lemma NeighbourChannel(pic: Picture, row: int, col: int, k: int)
    requires 0 <= k < |Neighbourhood(pic, row, col)|
    ensures |InBoundsSteps(Height(pic), Width(pic), (row, col), Directions)| == |Neighbourhood(pic, row, col)|
    ensures var ns := Neighbourhood(pic, row, col);
      var q := InBoundsSteps(Height(pic), Width(pic), (row, col), Directions)[k];
      InBounds(Height(pic), Width(pic), q) && Near((row, col), q) &&
      Reds(ns)[k] == Red(At(pic, q.0, q.1)) && Greens(ns)[k] == Green(At(pic, q.0, q.1)) &&
      Blues(ns)[k] == Blue(At(pic, q.0, q.1))
  {
    NeighbourhoodCells(pic, row, col, k);
  }

  /**
   * `weather` gives each channel the least value of that channel over the pixel and its
   * in-bounds 8-neighbours: no neighbour is darker, and some neighbour attains it.
   */
  lemma WeatherIsNeighbourhoodMinimum(pic: Picture, row: int, col: int)
    requires InBounds(Height(pic), Width(pic), (row, col))
    ensures var w := WeatheredColour(Neighbourhood(pic, row, col));
      w.alpha == DEFAULT_ALPHA &&
      (forall r, c :: InBounds(Height(pic), Width(pic), (r, c)) && Near((row, col), (r, c)) ==>
         w.red <= Red(At(pic, r, c)) && w.green <= Green(At(pic, r, c)) && w.blue <= Blue(At(pic, r, c))) &&
      (exists r, c :: InBounds(Height(pic), Width(pic), (r, c)) && Near((row, col), (r, c)) &&
         w.red == Red(At(pic, r, c))) &&
      (exists r, c :: InBounds(Height(pic), Width(pic), (r, c)) && Near((row, col), (r, c)) &&
         w.green == Green(At(pic, r, c))) &&
      (exists r, c :: InBounds(Height(pic), Width(pic), (r, c)) && Near((row, col), (r, c)) &&
         w.blue == Blue(At(pic, r, c)))
  {
    var ns := Neighbourhood(pic, row, col);
    var cells := InBoundsSteps(Height(pic), Width(pic), (row, col), Directions);
    NeighbourhoodShape(Height(pic), Width(pic), (row, col));
    NeighbourColoursAtCells(pic, (row, col), Directions);
    var w := WeatheredColour(ns);
    forall r, c | InBounds(Height(pic), Width(pic), (r, c)) && Near((row, col), (r, c))
      ensures w.red <= Red(At(pic, r, c)) && w.green <= Green(At(pic, r, c)) && w.blue <= Blue(At(pic, r, c))
    {
      var k :| 0 <= k < |cells| && cells[k] == (r, c);
      NeighbourChannel(pic, row, col, k);
    }
    var kr :| 0 <= kr < |ns| && Reds(ns)[kr] == w.red;
    NeighbourChannel(pic, row, col, kr);
    var kg :| 0 <= kg < |ns| && Greens(ns)[kg] == w.green;
    NeighbourChannel(pic, row, col, kg);
    var kb :| 0 <= kb < |ns| && Blues(ns)[kb] == w.blue;
    NeighbourChannel(pic, row, col, kb);
  }

  /** `weather` never makes a channel brighter than the pixel's own. */
  lemma WeatherNeverBrighter(pic: Picture, row: int, col: int)
    requires InBounds(Height(pic), Width(pic), (row, col))
    ensures var w := WeatheredColour(Neighbourhood(pic, row, col));
      w.red <= Red(At(pic, row, col)) && w.green <= Green(At(pic, row, col)) && w.blue <= Blue(At(pic, row, col))
  {
    WeatherIsNeighbourhoodMinimum(pic, row, col);
  }

  /** A one-pixel opaque pic is unchanged by `weather`: its neighbourhood is the pixel alone. */
  lemma WeatherSinglePixel(pic: Picture)
    requires Height(pic) == 1 && Width(pic) == 1 && Alpha(At(pic, 0, 0)) == DEFAULT_ALPHA
    ensures Pack(WeatheredColour(Neighbourhood(pic, 0, 0))) == At(pic, 0, 0)
  {
    var p := At(pic, 0, 0);
    var w := WeatheredColour(Neighbourhood(pic, 0, 0));
    WeatherIsNeighbourhoodMinimum(pic, 0, 0);
    assert w == Unpack(p);
    PackUnpack(p);
  }

  /** The contents `mirror` produces: every row read back to front. */
  function Mirrored(pic: Picture): (m: Picture)
    ensures Height(m) == Height(pic) && Width(m) == Width(pic)
    ensures forall i, j :: 0 <= i < Height(pic) && 0 <= j < Width(pic) ==> At(m, i, j) == At(pic, i, Width(pic) - 1 - j)
  {
    var rows: seq<seq<Int32>> := seq(Height(pic), i requires 0 <= i < Height(pic) =>
      seq<Int32>(Width(pic), j requires 0 <= j < Width(pic) => At(pic, i, Width(pic) - 1 - j)));
    assert forall i :: 0 <= i < |rows| ==> |rows[i]| == Width(pic);
    rows
  }

  /** The mirror of the mirror is the original image. */
  lemma MirrorTwice(pic: Picture)
    ensures Mirrored(Mirrored(pic)) == pic
  {
    var m := Mirrored(Mirrored(pic));
    forall i | 0 <= i < Height(pic)
      ensures m[i] == pic[i]
    {
      forall j | 0 <= j < Width(pic)
        ensures m[i][j] == pic[i][j]
      {
        assert m[i][j] == At(m, i, j) && pic[i][j] == At(pic, i, j);
      }
    }
  }

  // ----- the transformer -----

  /**
   * An image transformer over one source image. `pixels` is the source's contents when the
   * transformer was made; no operation changes the source, so it keeps holding them.
   */
  class ImageTransformer {
    const image: array2<Int32>
    const width: int
    const height: int
    ghost const pixels: Picture

    ghost predicate Valid()
      reads image
    {
      width == image.Length1 && height == image.Length0 && Holds(image, pixels)
    }

    constructor(img: array2<Int32>)
      ensures image == img && pixels == Snapshot(img) && Valid()
    {
      image := img;
      width := img.Length1;
      height := img.Length0;
      pixels := Snapshot(img);
    }

    /** `grayscale`, with `Image.toGray` (not part of this model) passed in as `toGray`. */
    method Grayscale(toGray: Colour -> Colour) returns (out: array2<Int32>)
      requires Valid()
      ensures fresh(out) && out.Length0 == height && out.Length1 == width
      ensures forall i, j :: 0 <= i < height && 0 <= j < width ==> out[i, j] == Pack(toGray(Unpack(At(pixels, i, j))))
    {
      out := new Int32[height, width];
      for col := 0 to width
        invariant forall i, j :: 0 <= i < height && 0 <= j < col ==> out[i, j] == Pack(toGray(Unpack(At(pixels, i, j))))
      {
        for row := 0 to height
          invariant forall i, j :: 0 <= i < height && 0 <= j < col ==> out[i, j] == Pack(toGray(Unpack(At(pixels, i, j))))
          invariant forall i :: 0 <= i < row ==> out[i, col] == Pack(toGray(Unpack(At(pixels, i, col))))
        {
          var color := Unpack(image[row, col]);
          var gray := toGray(color);
          out[row, col] := Pack(gray);
        }
      }
    }

    /** `red`: keeps alpha and red, clears green and blue. */
    method Red() returns (out: array2<Int32>)
      requires Valid()
      ensures fresh(out) && out.Length0 == height && out.Length1 == width
      ensures forall i, j :: 0 <= i < height && 0 <= j < width ==> out[i, j] == RedPixel(At(pixels, i, j))
    {
      out := new Int32[height, width];
      for col := 0 to width
        invariant forall i, j :: 0 <= i < height && 0 <= j < col ==> out[i, j] == RedPixel(At(pixels, i, j))
      {
        for row := 0 to height
          invariant forall i, j :: 0 <= i < height && 0 <= j < col ==> out[i, j] == RedPixel(At(pixels, i, j))
          invariant forall i :: 0 <= i < row ==> out[i, col] == RedPixel(At(pixels, i, col))
        {
          var originalPixel := image[row, col];
          var alpha := Alpha(originalPixel);
          var red := Pixels.Red(originalPixel);
          out[row, col] := Pack(Colour(alpha, red, 0, 0));
        }
      }
    }

    /** `mirror`: column j of the output is column width - 1 - j of the source. */
    method Mirror() returns (out: array2<Int32>)
      requires Valid()
      requires height > 0 ==> width > 0
      ensures fresh(out) && out.Length0 == height && out.Length1 == width
      ensures forall i, j :: 0 <= i < height && 0 <= j < width ==> out[i, j] == At(pixels, i, width - 1 - j)
      ensures Holds(out, Mirrored(pixels))
    {
      out := new Int32[height, width];
      for i := 0 to height
        invariant forall r, c :: 0 <= r < i && 0 <= c < width ==> out[r, c] == At(pixels, r, width - 1 - c)
      {
        for j := 0 to width / 2 + 1
          invariant forall r, c :: 0 <= r < i && 0 <= c < width ==> out[r, c] == At(pixels, r, width - 1 - c)
          invariant forall c :: 0 <= c < width && (c < j || width - 1 - c < j) ==> out[i, c] == At(pixels, i, width - 1 - c)
        {
          var pixelRight := image[i, width - j - 1];
          var pixelLeft := image[i, j];
          out[i, j] := pixelRight;
          out[i, width - j - 1] := pixelLeft;
        }
      }
    }

    /** `negative`: each colour channel c becomes 255 - c, alpha kept. */
    method Negative() returns (out: array2<Int32>)
      requires Valid()
      ensures fresh(out) && out.Length0 == height && out.Length1 == width
      ensures forall i, j :: 0 <= i < height && 0 <= j < width ==> out[i, j] == NegativePixel(At(pixels, i, j))
    {
      out := new Int32[height, width];
      for i := 0 to height
        invariant forall r, c :: 0 <= r < i && 0 <= c < width ==> out[r, c] == NegativePixel(At(pixels, r, c))
      {
        for j := 0 to width
          invariant forall r, c :: 0 <= r < i && 0 <= c < width ==> out[r, c] == NegativePixel(At(pixels, r, c))
          invariant forall c :: 0 <= c < j ==> out[i, c] == NegativePixel(At(pixels, i, c))
        {
          var originalPixel := image[i, j];
          var alpha := Alpha(originalPixel);
          var red := MAX_COLOUR_VALUE - Pixels.Red(originalPixel);
          var green := MAX_COLOUR_VALUE - Green(originalPixel);
          var blue := MAX_COLOUR_VALUE - Blue(originalPixel);
          out[i, j] := Pack(Colour(alpha, red, green, blue));
        }
      }
    }

    /** `posterize`: each colour channel banded to 32, 96 or 222, alpha forced to 255. */
    method Posterize() returns (out: array2<Int32>)
      requires Valid()
      ensures fresh(out) && out.Length0 == height && out.Length1 == width
      ensures forall i, j :: 0 <= i < height && 0 <= j < width ==> out[i, j] == PosterizePixel(At(pixels, i, j))
    {
      out := new Int32[height, width];
      for i := 0 to height
        invariant forall r, c :: 0 <= r < i && 0 <= c < width ==> out[r, c] == PosterizePixel(At(pixels, r, c))
      {
        for j := 0 to width
          invariant forall r, c :: 0 <= r < i && 0 <= c < width ==> out[r, c] == PosterizePixel(At(pixels, r, c))
          invariant forall c :: 0 <= c < j ==> out[i, c] == PosterizePixel(At(pixels, i, c))
        {
          var originalPixel := image[i, j];
          var red := CalculatePosterizeColour(Pixels.Red(originalPixel));
          var green := CalculatePosterizeColour(Green(originalPixel));
          var blue := CalculatePosterizeColour(Blue(originalPixel));
          out[i, j] := Pack(Colour(DEFAULT_ALPHA, red, green, blue));
        }
      }
    }

    /** `getPixelNeighbourhood`: walks the nine offsets, keeping the cells inside the image. */
    method GetPixelNeighbourhood(row: int, col: int) returns (ns: seq<Colour>)
      requires Valid()
      ensures ns == Neighbourhood(pixels, row, col)
    {
      ns := [];
      var directions := Directions;
      for k := 0 to |directions|
        invariant ns == NeighbourColours(pixels, (row, col), directions[..k])
      {
        var d := directions[k];
        assert directions[..k + 1][..k] == directions[..k];
        if 0 <= row + d.0 < height && 0 <= col + d.1 < width {
          var neighbouringPixel := Unpack(image[row + d.0, col + d.1]);
          ns := ns + [neighbouringPixel];
        }
      }
      assert directions[..|directions|] == directions;
    }

    /** The body of the `denoise` loop for one pixel. */
    method DenoiseAt(i: int, j: int) returns (p: Int32)
      requires Valid() && 0 <= i < height && 0 <= j < width
      ensures p == DenoisedPixel(pixels, i, j)
    {
      var pixelNeighbourhood := GetPixelNeighbourhood(i, j);
      var redList, greenList, blueList := ChannelLists(pixelNeighbourhood);
      MinMaxOfBytes(redList);
      MinMaxOfBytes(greenList);
      MinMaxOfBytes(blueList);
      MedianBounds(redList);
      MedianBounds(greenList);
      MedianBounds(blueList);
      var medianRed := MedianOfList(redList);
      var medianGreen := MedianOfList(greenList);
      var medianBlue := MedianOfList(blueList);
      p := Pack(Colour(DEFAULT_ALPHA, medianRed, medianGreen, medianBlue));
    }

    /** `denoise`: every pixel becomes the channel-wise median of its neighbourhood, opaque. */
    method Denoise() returns (out: array2<Int32>)
      requires Valid()
      ensures fresh(out) && out.Length0 == height && out.Length1 == width
      ensures forall i, j :: 0 <= i < height && 0 <= j < width ==> out[i, j] == DenoisedPixel(pixels, i, j)
    {
      out := new Int32[height, width];
      for i := 0 to height
        invariant forall r, c :: 0 <= r < i && 0 <= c < width ==> out[r, c] == DenoisedPixel(pixels, r, c)
      {
        DenoiseRow(out, i);
      }
    }

    /** The inner loop of `denoise`: fills row i of `out` and leaves the other rows alone. */
    method DenoiseRow(out: array2<Int32>, i: int)
      requires Valid() && out != image && out.Length0 == height && out.Length1 == width && 0 <= i < height
      modifies out
      ensures forall r, c :: 0 <= r < height && 0 <= c < width ==>
                out[r, c] == if r == i then DenoisedPixel(pixels, r, c) else old(out[r, c])
    {
      for j := 0 to width
        invariant forall r, c :: 0 <= r < height && 0 <= c < width ==>
                    out[r, c] == if r == i && c < j then DenoisedPixel(pixels, r, c) else old(out[r, c])
      {
        out[i, j] := DenoiseAt(i, j);
      }
    }

    /** The body of the `weather` loop for one pixel. */
    method WeatherAt(i: int, j: int) returns (p: Int32)
      requires Valid() && 0 <= i < height && 0 <= j < width
      ensures p == WeatheredPixel(pixels, i, j)
    {
      var pixelNeighbourhood := GetPixelNeighbourhood(i, j);
      var redList, greenList, blueList := ChannelLists(pixelNeighbourhood);
      MinMaxOfBytes(redList);
      MinMaxOfBytes(greenList);
      MinMaxOfBytes(blueList);
      var minRed := Min(redList);
      var minGreen := Min(greenList);
      var minBlue := Min(blueList);
      p := Pack(Colour(DEFAULT_ALPHA, minRed, minGreen, minBlue));
    }

    /** `weather`: every pixel becomes the channel-wise minimum of its neighbourhood, opaque. */
    method Weather() returns (out: array2<Int32>)
      requires Valid()
      ensures fresh(out) && out.Length0 == height && out.Length1 == width
      ensures forall i, j :: 0 <= i < height && 0 <= j < width ==> out[i, j] == WeatheredPixel(pixels, i, j)
    {
      out := new Int32[height, width];
      for i := 0 to height
        invariant forall r, c :: 0 <= r < i && 0 <= c < width ==> out[r, c] == WeatheredPixel(pixels, r, c)
      {
        WeatherRow(out, i);
      }
    }

    /** The inner loop of `weather`: fills row i of `out` and leaves the other rows alone. */
    method WeatherRow(out: array2<Int32>, i: int)
      requires Valid() && out != image && out.Length0 == height && out.Length1 == width && 0 <= i < height
      modifies out
      ensures forall r, c :: 0 <= r < height && 0 <= c < width ==>
                out[r, c] == if r == i then WeatheredPixel(pixels, r, c) else old(out[r, c])
    {
      for j := 0 to width
        invariant forall r, c :: 0 <= r < height && 0 <= c < width ==>
                    out[r, c] == if r == i && c < j then WeatheredPixel(pixels, r, c) else old(out[r, c])
      {
        out[i, j] := WeatherAt(i, j);
      }
    }

    /** `getBlockRGBAverage`: sums the three channels over the block and divides by its area. */
    method GetBlockRGBAverage(currentRow: int, currentCol: int, blockHeight: int, blockWidth: int)
      returns (avg: Colour)
      requires Valid()
      requires 0 <= currentRow && currentRow + blockHeight <= height
      requires 0 <= currentCol && currentCol + blockWidth <= width
      requires blockHeight >= 1 && blockWidth >= 1
      ensures avg == BlockAverage(pixels, currentRow, currentCol, blockHeight, blockWidth)
    {
      var red, green, blue := 0, 0, 0;
      for i := currentRow to currentRow + blockHeight
        invariant red == BlockSum(pixels, currentRow, currentCol, i - currentRow, blockWidth, RedChannel)
        invariant green == BlockSum(pixels, currentRow, currentCol, i - currentRow, blockWidth, GreenChannel)
        invariant blue == BlockSum(pixels, currentRow, currentCol, i - currentRow, blockWidth, BlueChannel)
      {
        for j := currentCol to currentCol + blockWidth
          invariant red == BlockSum(pixels, currentRow, currentCol, i - currentRow, blockWidth, RedChannel)
                           + RowSum(pixels, i, currentCol, j - currentCol, RedChannel)
          invariant green == BlockSum(pixels, currentRow, currentCol, i - currentRow, blockWidth, GreenChannel)
                             + RowSum(pixels, i, currentCol, j - currentCol, GreenChannel)
          invariant blue == BlockSum(pixels, currentRow, currentCol, i - currentRow, blockWidth, BlueChannel)
                            + RowSum(pixels, i, currentCol, j - currentCol, BlueChannel)
        {
          var pixel := image[i, j];
          red := red + Pixels.Red(pixel);
          green := green + Green(pixel);
          blue := blue + Blue(pixel);
        }
      }
      var area := blockHeight * blockWidth;
      BlockSumBounds(pixels, currentRow, currentCol, blockHeight, blockWidth, RedChannel);
      BlockSumBounds(pixels, currentRow, currentCol, blockHeight, blockWidth, GreenChannel);
      BlockSumBounds(pixels, currentRow, currentCol, blockHeight, blockWidth, BlueChannel);
      MeanIsByte(red, area);
      MeanIsByte(green, area);
      MeanIsByte(blue, area);
      red := red / area;
      green := green / area;
      blue := blue / area;
      avg := Colour(DEFAULT_ALPHA, red, green, blue);
    }

    /** One pass of the inner loop of `blockPaint`: paints the blocks of the band at row i. */
    method PaintBlockRow(out: array2<Int32>, blockSize: int, i: int, ghost blockRowIndex: int)
      requires Valid() && out != image && out.Length0 == height && out.Length1 == width
      requires blockSize >= 1 && 0 <= blockRowIndex && i == blockRowIndex * blockSize && 0 <= i < height
      modifies out
      ensures forall r, c :: 0 <= r < height && 0 <= c < width ==>
                out[r, c] == if i <= r < i + MinInt(blockSize, height - i)
                             then Pack(BlockColour(pixels, blockSize, r, c)) else old(out[r, c])
    {
      var j := 0;
      ghost var blockColIndex := 0;
      while j < width
        invariant 0 <= j && j == blockColIndex * blockSize && 0 <= blockColIndex
        invariant forall r, c :: 0 <= r < height && 0 <= c < width ==>
                    out[r, c] == if i <= r < i + MinInt(blockSize, height - i) && c < j
                                 then Pack(BlockColour(pixels, blockSize, r, c)) else old(out[r, c])
        decreases width - j
      {
        var blockHeight := MinInt(blockSize, height - i);
        var blockWidth := MinInt(blockSize, width - j);
        var avgRGB := GetBlockRGBAverage(i, j, blockHeight, blockWidth);
        BlockColourOfBlock(pixels, blockSize, i, blockRowIndex, j, blockColIndex);
        FillBlock(out, i, j, blockHeight, blockWidth, Pack(avgRGB));
        j := j + blockSize;
        blockColIndex := blockColIndex + 1;
      }
    }

    /**
     * `blockPaint(blockSize)`: rejects a block larger than the image; otherwise paints each
     * block, starting at multiples of `blockSize` and clipped at the edges, with its average.
     */
    method BlockPaint(blockSize: int) returns (result: Result<array2<Int32>>)
      requires Valid()
      requires blockSize >= 1 || height == 0
      ensures result.Failure? <==> blockSize > width || blockSize > height
      ensures result.Failure? ==> result.error == IllegalArgument
      ensures result.Success? ==> fresh(result.value) && result.value.Length0 == height && result.value.Length1 == width
      ensures result.Success? ==> forall r, c :: 0 <= r < height && 0 <= c < width ==>
                result.value[r, c] == Pack(BlockColour(pixels, blockSize, r, c))
    {
      if blockSize > width || blockSize > height {
        return Failure(IllegalArgument);
      }
      var out := new Int32[height, width];
      var i := 0;
      ghost var blockRowIndex := 0;
      while i < height
        invariant 0 <= i && i == blockRowIndex * blockSize && 0 <= blockRowIndex
        invariant forall r, c :: 0 <= r < height && r < i && 0 <= c < width ==>
                    out[r, c] == Pack(BlockColour(pixels, blockSize, r, c))
        decreases height - i
      {
        PaintBlockRow(out, blockSize, i, blockRowIndex);
        i := i + blockSize;
        blockRowIndex := blockRowIndex + 1;
      }
      return Success(out);
    }

    // ----- green screen -----

    /**
     * `findConnectedRegion`: a depth-first flood fill from (row, col) over the cells of
     * `screenColour`. A popped cell is taken when it is in bounds, not yet visited and of
     * the colour; it is then marked visited, added to the region and its eight neighbours
     * are pushed. `seen` stands for the cells `visited` marks on entry; the region is the
     * seed's component among the cells outside it.
     */
    method FindConnectedRegion(row: int, col: int, screenColour: Colour, visited: array2<bool>, ghost seen: set<Point>)
      returns (region: seq<Point>)
      requires Valid() && VisitedAre(visited, seen, [])
      modifies visited
      ensures VisitedAre(visited, seen, region)
      ensures forall k :: 0 <= k < |region| ==> Matches(pixels, screenColour, region[k]) && region[k] !in seen
      ensures NoDuplicates(region) && Spanning(region)
      ensures region != [] <==> Matches(pixels, screenColour, (row, col)) && (row, col) !in seen
      ensures region != [] ==> region[0] == (row, col)
      ensures forall q, n :: q in region && Adjacent(q, n) && Matches(pixels, screenColour, n) ==>
                n in seen || n in region
    {
      region := [];
      var stack := [(row, col)];
      ghost var parents: seq<int> := [-1];
      ghost var tree: seq<int> := [];
      ghost var unvisited := set r, c | 0 <= r < height && 0 <= c < width :: (r, c);
      FloodStart(pixels, screenColour, seen, (row, col), unvisited);
      while stack != []
        invariant FloodState(pixels, screenColour, seen, (row, col), region, stack, parents, tree, unvisited)
        invariant VisitedAre(visited, seen, region)
        decreases |unvisited|, |stack|
      {
        region, stack, parents, tree, unvisited :=
          FloodStep(screenColour, visited, seen, (row, col), region, stack, parents, tree, unvisited);
      }
      FloodDone(pixels, screenColour, seen, (row, col), region, parents, tree, unvisited);
    }

    /**
     * `greenScreen(screenColour, backgroundImage)`: a copy of the image in which, within
     * the bounding rectangle of the first largest 8-connected region of `screenColour`,
     * every pixel of that colour is replaced by the background tiled from the top-left
     * corner. With no pixel of the colour the copy is returned unchanged.
     */
    method GreenScreen(screenColour: Colour, background: array2<Int32>)
      returns (out: array2<Int32>, ghost found: seq<seq<Point>>, ghost region: seq<Point>, ghost rect: Rectangle,
               ghost bg: Picture)
      requires Valid() && background.Length0 >= 1 && background.Length1 >= 1
      ensures fresh(out) && out.Length0 == height && out.Length1 == width
      ensures ComponentsInScanOrder(pixels, screenColour, found) && FirstLargest(found, region)
      ensures region != [] ==> IsBoundingBox(rect, region)
      ensures Holds(background, bg) && Height(bg) >= 1 && Width(bg) >= 1
      ensures forall r, c :: 0 <= r < height && 0 <= c < width ==>
                out[r, c] == if region == [] then At(pixels, r, c)
                             else GreenScreenPixel(pixels, screenColour, rect, bg, r, c)
    {
      out := CopyImage();
      bg := Snapshot(background);
      var largest;
      largest, found := FindLargestConnectedRegion(screenColour);
      region, rect := largest, Rectangle(height, width, 0, 0);
      if !(largest == []) {
        LargestIsComponent(pixels, screenColour, found, largest);
        var rectangle := FindRectangle(largest);
        BoundingBoxWithin(height, width, rectangle, largest);
        SetGreenScreen(out, screenColour, rectangle, background, pixels, bg);
        rect := rectangle;
      }
    }

    /** `new Image(image)`: a fresh copy of the image. */
    method CopyImage() returns (out: array2<Int32>)
      requires Valid()
      ensures fresh(out) && out.Length0 == height && out.Length1 == width && Holds(out, pixels)
    {
      out := new Int32[height, width];
      for i := 0 to height
        invariant forall r, c :: 0 <= r < i && 0 <= c < width ==> out[r, c] == At(pixels, r, c)
      {
        for j := 0 to width
          invariant forall r, c :: 0 <= c < width && (0 <= r < i || (r == i && c < j)) ==> out[r, c] == At(pixels, r, c)
        {
          out[i, j] := image[i, j];
        }
      }
    }

    /**
     * `findLargestConnectedRegion`: a row-major scan that starts a flood fill at every
     * unvisited cell of `screenColour` and keeps the first largest region. `found` lists
     * the regions in the order the scan met them: between them they are the components of
     * the colour.
     */
    method FindLargestConnectedRegion(screenColour: Colour) returns (largestRegion: seq<Point>, ghost found: seq<seq<Point>>)
      requires Valid()
      ensures ComponentsInScanOrder(pixels, screenColour, found)
      ensures FirstLargest(found, largestRegion)
    {
      var visited := new bool[height, width]((_, _) => false);
      largestRegion := [];
      found := [];
      ghost var seen: set<Point> := {};
      ghost var owner: map<Point, int> := map[];
      ghost var best := 0;
      ScanStart(pixels, screenColour);
      for i := 0 to height
        invariant VisitedAre(visited, seen, [])
        invariant ScanState(pixels, screenColour, (i, 0), seen, found, owner)
        invariant LargestSoFar(found, largestRegion, best)
      {
        largestRegion, seen, found, owner, best := ScanRow(screenColour, visited, i, largestRegion, seen, found, owner, best);
      }
      ScanDone(pixels, screenColour, seen, found, owner);
      LargestDone(found, largestRegion, best);
    }

    /** The inner loop of the scan of `findLargestConnectedRegion`, over row i. */
    method ScanRow(screenColour: Colour, visited: array2<bool>, i: int, largest: seq<Point>,
                   ghost seen: set<Point>, ghost found: seq<seq<Point>>, ghost owner: map<Point, int>, ghost best: int)
      returns (largest': seq<Point>, ghost seen': set<Point>, ghost found': seq<seq<Point>>,
               ghost owner': map<Point, int>, ghost best': int)
      requires Valid() && 0 <= i < height
      requires VisitedAre(visited, seen, [])
      requires ScanState(pixels, screenColour, (i, 0), seen, found, owner)
      requires LargestSoFar(found, largest, best)
      modifies visited
      ensures VisitedAre(visited, seen', [])
      ensures ScanState(pixels, screenColour, (i + 1, 0), seen', found', owner')
      ensures LargestSoFar(found', largest', best')
    {
      largest', seen', found', owner', best' := largest, seen, found, owner, best;
      for j := 0 to width
        invariant VisitedAre(visited, seen', [])
        invariant ScanState(pixels, screenColour, (i, j), seen', found', owner')
        invariant LargestSoFar(found', largest', best')
      {
        largest', seen', found', owner', best' := ScanCell(screenColour, visited, i, j, largest', seen', found', owner', best');
      }
      ScanNextRow(pixels, screenColour, i, seen', found', owner');
    }

    /** The body of the scan of `findLargestConnectedRegion` at cell (i, j). */
    method ScanCell(screenColour: Colour, visited: array2<bool>, i: int, j: int, largest: seq<Point>,
                    ghost seen: set<Point>, ghost found: seq<seq<Point>>, ghost owner: map<Point, int>, ghost best: int)
      returns (largest': seq<Point>, ghost seen': set<Point>, ghost found': seq<seq<Point>>,
               ghost owner': map<Point, int>, ghost best': int)
      requires Valid() && 0 <= i < height && 0 <= j < width
      requires VisitedAre(visited, seen, [])
      requires ScanState(pixels, screenColour, (i, j), seen, found, owner)
      requires LargestSoFar(found, largest, best)
      modifies visited
      ensures VisitedAre(visited, seen', [])
      ensures ScanState(pixels, screenColour, (i, j + 1), seen', found', owner')
      ensures LargestSoFar(found', largest', best')
    {
      var pixel := Unpack(image[i, j]);
      if !visited[i, j] && IsMatchingColour(screenColour, pixel) {
        var region := FindConnectedRegion(i, j, screenColour, visited, seen);
        VisitedMerge(visited, seen, region);
        ScanTake(pixels, screenColour, i, j, seen, found, owner, region);
        LargestStep(found, largest, best, region);
        if |region| > |largest| {
          largest', best' := region, |found|;
        } else {
          largest', best' := largest, best;
        }
        seen' := seen + Cells(region);
        owner' := Assign(owner, region, |found|);
        found' := found + [region];
      } else {
        ScanSkip(pixels, screenColour, i, j, seen, found, owner);
        largest', seen', found', owner', best' := largest, seen, found, owner, best;
      }
    }

    /**
     * `findRectangle`: the row and column bounds of the region, starting from the bottom
     * right corner (height, width) for the minima and from (0, 0) for the maxima.
     */
    method FindRectangle(region: seq<Point>) returns (rect: Rectangle)
      requires Valid()
      ensures forall k :: 0 <= k < |region| ==> InRectangle(rect, region[k].0, region[k].1)
      ensures rect.xTopLeft <= height && rect.yTopLeft <= width && 0 <= rect.xBottomRight && 0 <= rect.yBottomRight
      ensures rect.xTopLeft == height || exists k :: 0 <= k < |region| && region[k].0 == rect.xTopLeft
      ensures rect.yTopLeft == width || exists k :: 0 <= k < |region| && region[k].1 == rect.yTopLeft
      ensures rect.xBottomRight == 0 || exists k :: 0 <= k < |region| && region[k].0 == rect.xBottomRight
      ensures rect.yBottomRight == 0 || exists k :: 0 <= k < |region| && region[k].1 == rect.yBottomRight
      ensures region != [] && (forall k :: 0 <= k < |region| ==> InBounds(height, width, region[k])) ==>
                IsBoundingBox(rect, region)
    {
      var minRow, minCol, maxRow, maxCol := height, width, 0, 0;
      // where each bound was last taken from, or -1 while it keeps its initial value
      ghost var wMinRow, wMinCol, wMaxRow, wMaxCol := -1, -1, -1, -1;
      for k := 0 to |region|
        invariant minRow <= height && minCol <= width && 0 <= maxRow && 0 <= maxCol
        invariant forall t :: 0 <= t < k ==> minRow <= region[t].0 <= maxRow && minCol <= region[t].1 <= maxCol
        invariant -1 <= wMinRow < k && (if wMinRow < 0 then minRow == height else region[wMinRow].0 == minRow)
        invariant -1 <= wMinCol < k && (if wMinCol < 0 then minCol == width else region[wMinCol].1 == minCol)
        invariant -1 <= wMaxRow < k && (if wMaxRow < 0 then maxRow == 0 else region[wMaxRow].0 == maxRow)
        invariant -1 <= wMaxCol < k && (if wMaxCol < 0 then maxCol == 0 else region[wMaxCol].1 == maxCol)
      {
        var point := region[k];
        if point.0 < minRow {
          minRow, wMinRow := point.0, k;
        }
        if point.0 > maxRow {
          maxRow, wMaxRow := point.0, k;
        }
        if point.1 < minCol {
          minCol, wMinCol := point.1, k;
        }
        if point.1 > maxCol {
          maxCol, wMaxCol := point.1, k;
        }
      }
      rect := Rectangle(minRow, minCol, maxRow, maxCol);
      if region != [] && forall k :: 0 <= k < |region| ==> InBounds(height, width, region[k]) {
        // an in-bounds cell lies above row `height` and left of column `width`, and the
        // maxima are at least the row and column of region[0]
        assert region[0].0 < height && region[0].1 < width;
        assert wMinRow >= 0 && wMinCol >= 0;
        if wMaxRow < 0 {
          assert region[0].0 == 0;
        }
        if wMaxCol < 0 {
          assert region[0].1 == 0;
        }
      }
    }

    /**
     * `setGreenScreen`: inside the rectangle, every pixel of `img` that has the colour
     * takes the background pixel at (row mod its height, column mod its width); `pic` and
     * `bg` are the contents of the two images.
     */
    method SetGreenScreen(img: array2<Int32>, screenColour: Colour, rect: Rectangle, background: array2<Int32>,
                          ghost pic: Picture, ghost bg: Picture)
      requires img != background && Holds(img, pic) && Holds(background, bg)
      requires Height(bg) >= 1 && Width(bg) >= 1
      requires rect.xTopLeft <= rect.xBottomRight ==> 0 <= rect.xTopLeft && rect.xBottomRight < img.Length0
      requires rect.yTopLeft <= rect.yBottomRight ==> 0 <= rect.yTopLeft && rect.yBottomRight < img.Length1
      modifies img
      ensures forall r, c :: 0 <= r < img.Length0 && 0 <= c < img.Length1 ==>
                img[r, c] == GreenScreenPixel(pic, screenColour, rect, bg, r, c)
    {
      var i := rect.xTopLeft;
      while i <= rect.xBottomRight
        invariant rect.xTopLeft <= i && (i <= rect.xBottomRight + 1 || i == rect.xTopLeft)
        invariant forall r, c :: 0 <= r < img.Length0 && 0 <= c < img.Length1 ==>
                    img[r, c] == if r < i then GreenScreenPixel(pic, screenColour, rect, bg, r, c) else At(pic, r, c)
        decreases rect.xBottomRight - i
      {
        SetGreenScreenRow(img, screenColour, rect, background, pic, bg, i);
        i := i + 1;
      }
      forall r, c | 0 <= r < img.Length0 && 0 <= c < img.Length1 && i <= r
        ensures img[r, c] == GreenScreenPixel(pic, screenColour, rect, bg, r, c)
      {
        assert !InRectangle(rect, r, c);
      }
    }

    /** The inner loop of `setGreenScreen`, over row i of the rectangle. */
    method SetGreenScreenRow(img: array2<Int32>, screenColour: Colour, rect: Rectangle, background: array2<Int32>,
                             ghost pic: Picture, ghost bg: Picture, i: int)
      requires img != background && Holds(background, bg) && Height(bg) >= 1 && Width(bg) >= 1
      requires Height(pic) == img.Length0 && Width(pic) == img.Length1
      requires rect.xTopLeft <= i <= rect.xBottomRight && 0 <= i < img.Length0
      requires rect.yTopLeft <= rect.yBottomRight ==> 0 <= rect.yTopLeft && rect.yBottomRight < img.Length1
      requires forall r, c :: 0 <= r < img.Length0 && 0 <= c < img.Length1 ==>
                 img[r, c] == if r < i then GreenScreenPixel(pic, screenColour, rect, bg, r, c) else At(pic, r, c)
      modifies img
      ensures forall r, c :: 0 <= r < img.Length0 && 0 <= c < img.Length1 ==>
                img[r, c] == if r <= i then GreenScreenPixel(pic, screenColour, rect, bg, r, c) else At(pic, r, c)
    {
      var j := rect.yTopLeft;
      while j <= rect.yBottomRight
        invariant rect.yTopLeft <= j && (j <= rect.yBottomRight + 1 || j == rect.yTopLeft)
        invariant forall r, c :: 0 <= r < img.Length0 && 0 <= c < img.Length1 ==>
                    img[r, c] == if r < i || (r == i && c < j) then GreenScreenPixel(pic, screenColour, rect, bg, r, c)
                                 else At(pic, r, c)
        decreases rect.yBottomRight - j
      {
        var currentPixel := Unpack(img[i, j]);
        if currentPixel == screenColour {
          var backWidth := background.Length1;
          var backHeight := background.Length0;
          var backColour := Unpack(background[i % backHeight, j % backWidth]);
          PackUnpack(background[i % backHeight, j % backWidth]);
          img[i, j] := Pack(backColour);
        }
        j := j + 1;
      }
      forall c | 0 <= c < img.Length1 && j <= c
        ensures At(pic, i, c) == GreenScreenPixel(pic, screenColour, rect, bg, i, c)
      {
        assert !InRectangle(rect, i, c);
      }
    }

    /** The cells now visited are those visited before the fill and those it took. */
    ghost predicate VisitedAre(visited: array2<bool>, seen: set<Point>, region: seq<Point>)
      reads visited
    {
      visited.Length0 == height && visited.Length1 == width &&
      forall r, c :: 0 <= r < height && 0 <= c < width ==> visited[r, c] == ((r, c) in seen || (r, c) in region)
    }

    lemma VisitedMerge(visited: array2<bool>, seen: set<Point>, region: seq<Point>)
      requires VisitedAre(visited, seen, region)
      ensures VisitedAre(visited, seen + Cells(region), [])
    {
    }

    /**
     * One turn of the loop of `findConnectedRegion`: pops a cell and, if it is in bounds,
     * not visited and of the colour, marks it, adds it to the region and pushes its
     * neighbours.
     */
    method FloodStep(screenColour: Colour, visited: array2<bool>, ghost seen: set<Point>, ghost seed: Point,
                     region: seq<Point>, stack: seq<Point>,
                     ghost parents: seq<int>, ghost tree: seq<int>, ghost unvisited: set<Point>)
      returns (region': seq<Point>, stack': seq<Point>,
               ghost parents': seq<int>, ghost tree': seq<int>, ghost unvisited': set<Point>)
      requires Valid() && stack != []
      requires FloodState(pixels, screenColour, seen, seed, region, stack, parents, tree, unvisited)
      requires VisitedAre(visited, seen, region)
      modifies visited
      ensures FloodState(pixels, screenColour, seen, seed, region', stack', parents', tree', unvisited')
      ensures VisitedAre(visited, seen, region')
      ensures |unvisited'| < |unvisited| || (|unvisited'| == |unvisited| && |stack'| < |stack|)
    {
      var point := stack[|stack| - 1];
      var x, y := point.0, point.1;
      if 0 <= x < height && 0 <= y < width && !visited[x, y] && IsMatchingColour(screenColour, Unpack(image[x, y])) {
        FloodTake(pixels, screenColour, seen, seed, region, stack, parents, tree, unvisited);
        visited[x, y] := true;
        unvisited' := unvisited - {point};
        tree' := tree + [parents[|parents| - 1]];
        parents' := parents[..|parents| - 1] + Repeat(|region|, |Moves|);
        region' := region + [point];
        stack' := stack[..|stack| - 1] + Neighbours(point);
      } else {
        FloodSkip(pixels, screenColour, seen, seed, region, stack, parents, tree, unvisited);
        region', tree', unvisited' := region, tree, unvisited;
        stack' := stack[..|stack| - 1];
        parents' := parents[..|parents| - 1];
      }
    }
  }

  /** The contents of an image, row by row. */
  ghost function Snapshot(image: array2<Int32>): (pic: Picture)
    reads image
    ensures Holds(image, pic)
  {
    var rows := seq(image.Length0, r requires 0 <= r < image.Length0 reads image =>
                      seq(image.Length1, c requires 0 <= c < image.Length1 reads image => image[r, c]));
    assert forall r :: 0 <= r < |rows| ==> |rows[r]| == image.Length1;
    rows
  }

  /** Every cell of the block at (r0, c0) is given the block's average by `BlockColour`. */
  lemma BlockColourOfBlock(pic: Picture, blockSize: int, r0: int, m: int, c0: int, n: int)
    requires blockSize >= 1 && 0 <= m && 0 <= n
    requires r0 == m * blockSize && c0 == n * blockSize && r0 < Height(pic) && c0 < Width(pic)
    ensures forall r, c :: r0 <= r < r0 + MinInt(blockSize, Height(pic) - r0) &&
                           c0 <= c < c0 + MinInt(blockSize, Width(pic) - c0) ==>
              BlockColour(pic, blockSize, r, c) ==
              BlockAverage(pic, r0, c0, MinInt(blockSize, Height(pic) - r0), MinInt(blockSize, Width(pic) - c0))
  {
    DivModUnique(r0, blockSize, m, 0);
    DivModUnique(c0, blockSize, n, 0);
    forall r, c | r0 <= r < r0 + MinInt(blockSize, Height(pic) - r0) && c0 <= c < c0 + MinInt(blockSize, Width(pic) - c0)
      ensures BlockColour(pic, blockSize, r, c) ==
              BlockAverage(pic, r0, c0, MinInt(blockSize, Height(pic) - r0), MinInt(blockSize, Width(pic) - c0))
    {
      BlockOrigin(r, r0, blockSize);
      BlockOrigin(c, c0, blockSize);
    }
  }

  /** The inner two loops of `blockPaint`: paints the rows x cols block at (r0, c0) with p. */
  method FillBlock(out: array2<Int32>, r0: int, c0: int, rows: int, cols: int, p: Int32)
    requires 0 <= r0 && 0 <= rows && r0 + rows <= out.Length0
    requires 0 <= c0 && 0 <= cols && c0 + cols <= out.Length1
    modifies out
    ensures forall r, c :: 0 <= r < out.Length0 && 0 <= c < out.Length1 ==>
              out[r, c] == if r0 <= r < r0 + rows && c0 <= c < c0 + cols then p else old(out[r, c])
  {
    for blockRow := r0 to r0 + rows
      invariant forall r, c :: 0 <= r < out.Length0 && 0 <= c < out.Length1 ==>
                  out[r, c] == if r0 <= r < blockRow && c0 <= c < c0 + cols then p else old(out[r, c])
    {
      for blockCol := c0 to c0 + cols
        invariant forall r, c :: 0 <= r < out.Length0 && 0 <= c < out.Length1 ==>
                    out[r, c] == if (r0 <= r < blockRow && c0 <= c < c0 + cols) ||
                                    (r == blockRow && c0 <= c < blockCol) then p else old(out[r, c])
      {
        out[blockRow, blockCol] := p;
      }
    }
  }
}
