/** The bounded area-averaging of an imported image: each output pixel is the mean luminance of its
    cell of source pixels. */
module Downscale {
  import opened Arithmetic
  import opened SquareFilter
  import opened Wrappers

  const MAX_PIXELS := 4 * 1024 * 1024
  const MAX_SIDE := 4096
  const OUTPUT_SIDE := 960
  /** The bounds of the frames the code reader takes. */
  const FRAME_SIDE := 2048

  /** A decoded image: `channels` bytes for each pixel, row by row. */
  datatype Picture = Picture(bytes: seq<Pixel>, w: nat, h: nat, channels: nat)

  /** What is checked before anything is averaged. */
  predicate Accepted(p: Picture) {
    && 1 <= p.w <= MAX_SIDE && 1 <= p.h <= MAX_SIDE && p.w * p.h <= MAX_PIXELS
    && 1 <= p.channels <= 4 && |p.bytes| == p.w * p.h * p.channels
  }

  // ----- Luminance

  /** A pixel's luminance in front of a white background. */
  function CompositedLuma(pixel: seq<Pixel>, channels: nat): (luma: nat)
    requires 1 <= channels <= 4 && |pixel| >= channels
    ensures GreyOf(pixel, channels) <= luma <= 255
    ensures channels % 2 == 1 || pixel[channels - 1] == 255 ==> luma == GreyOf(pixel, channels)
    ensures channels % 2 == 0 ==>
              var grey, alpha: int := GreyOf(pixel, channels), pixel[channels - 1];
              255 * luma <= grey * alpha + 255 * (255 - alpha) < 255 * luma + 255
  {
    var luma := GreyOf(pixel, channels);
    var alpha := if channels == 2 || channels == 4 then pixel[channels - 1] else 255;
    OverWhiteBounds(luma, alpha);
    OverWhite(luma, alpha)
  }

  function Grey(red: int, green: int, blue: int): int { (red + 2 * green + blue) / 4 }

  /** The grey level without regard to transparency. */
  function GreyOf(pixel: seq<Pixel>, channels: nat): (grey: nat)
    requires 1 <= channels <= 4 && |pixel| >= channels
    ensures grey <= 255 && (channels <= 2 ==> grey == pixel[0])
    ensures channels > 2 ==>
              var red: int, green: int, blue: int := pixel[0], pixel[1], pixel[2];
              4 * grey <= red + 2 * green + blue < 4 * grey + 4
  {
    if channels <= 2 then pixel[0] else Grey(pixel[0], pixel[1], pixel[2])
  }

  function OverWhite(luma: int, alpha: int): int { (luma * alpha + 255 * (255 - alpha)) / 255 }

  lemma OverWhiteBounds(luma: nat, alpha: nat)
    requires luma <= 255 && alpha <= 255
    ensures luma <= OverWhite(luma, alpha) <= 255
    ensures 255 * OverWhite(luma, alpha) <= luma * alpha + 255 * (255 - alpha) < 255 * OverWhite(luma, alpha) + 255
    ensures OverWhite(luma, 0) == 255 && OverWhite(luma, 255) == luma
  {
    MulMonotone(luma, 255, alpha);
    MulMonotone(luma, 255, 255 - alpha);
    DivModUnique(luma * 255, 255, luma, 0);
    assert luma * alpha + 255 * (255 - alpha) >= luma * 255;
  }

  lemma PixelBytes(p: Picture, x: int, y: int)
    requires Accepted(p) && Inside(p.w, p.h, x, y)
    ensures 0 <= (Index(p.w, x, y)) * p.channels && (Index(p.w, x, y)) * p.channels + p.channels <= |p.bytes|
  {
    IndexInside(p.w, p.h, x, y);
    var i := Index(p.w, x, y);
    MulMonotone(i + 1, p.w * p.h, p.channels);
    assert (i + 1) * p.channels == i * p.channels + p.channels;
  }

  function LumaAt(p: Picture, x: int, y: int): (luma: nat)
    requires Accepted(p) && Inside(p.w, p.h, x, y)
    ensures luma <= 255
  {
    PixelBytes(p, x, y);
    CompositedLuma(p.bytes[(Index(p.w, x, y)) * p.channels..], p.channels)
  }

  /** The luminance of a pixel, from its bytes: grey is itself, colours count one, two and one quarters, and
      transparency lets white through; each rounded down. */
  lemma LumaOfBytes(p: Picture, x: nat, y: nat)
    requires Accepted(p) && x < p.w && y < p.h
    ensures var o := (y * p.w + x) * p.channels;
            && 0 <= o && o + p.channels <= |p.bytes|
            && var b: seq<int> := p.bytes[o..o + p.channels];
            match p.channels
            case 1 => LumaAt(p, x, y) == b[0]
            case 2 => IsOverWhite(LumaAt(p, x, y), b[0], b[1])
            case 3 => IsGrey(LumaAt(p, x, y), b[0], b[1], b[2])
            case _ => exists grey :: IsGrey(grey, b[0], b[1], b[2]) && IsOverWhite(LumaAt(p, x, y), grey, b[3])
  {
    PixelBytes(p, x, y);
    var o := (y * p.w + x) * p.channels;
    var pixel := p.bytes[o..];
    assert p.bytes[o..o + p.channels] == pixel[..p.channels];
    assert LumaAt(p, x, y) == CompositedLuma(pixel, p.channels);
    hide LumaAt, CompositedLuma, GreyOf, OverWhite, Grey, Accepted;
    if p.channels == 4 {
      assert IsGrey(GreyOf(pixel, 4), pixel[0], pixel[1], pixel[2]);
    }
  }

  ghost predicate IsGrey(grey: int, red: int, green: int, blue: int) {
    4 * grey <= red + 2 * green + blue < 4 * grey + 4
  }

  ghost predicate IsOverWhite(luma: int, grey: int, alpha: int) {
    255 * luma <= grey * alpha + 255 * (255 - alpha) < 255 * luma + 255
  }

  // ----- Cells

  function OutSide(side: nat, longest: nat): nat
    requires longest >= 1
  {
    Max(side * OUTPUT_SIDE / longest, 1)
  }

  function Longest(p: Picture): nat { Max(Max(p.w, p.h), OUTPUT_SIDE) }

  /** Where the cell `k` of `out` cells over `side` pixels starts, and where it ends. */
  function CellStart(k: nat, side: nat, out: nat): nat
    requires out >= 1
  {
    k * side / out
  }

  function CellEnd(k: nat, side: nat, out: nat): nat
    requires out >= 1
  {
    Max((k + 1) * side / out, CellStart(k, side, out) + 1)
  }

  lemma OutSideBounds(side: nat, longest: nat)
    requires 1 <= side <= longest && longest >= OUTPUT_SIDE
    ensures 1 <= OutSide(side, longest) <= side && OutSide(side, longest) <= OUTPUT_SIDE
    ensures longest == OUTPUT_SIDE ==> OutSide(side, longest) == side
    ensures side == longest ==> OutSide(side, longest) == OUTPUT_SIDE
    ensures var out := OutSide(side, longest);
            side * 960 < (out + 1) * longest && (out > 1 ==> out * longest <= side * 960)
  {
    DivModUnique(longest * OUTPUT_SIDE, longest, OUTPUT_SIDE, 0);
    assert side * OUTPUT_SIDE < (side * OUTPUT_SIDE / longest + 1) * longest by {
      assert (side * OUTPUT_SIDE / longest + 1) * longest == side * OUTPUT_SIDE / longest * longest + longest;
    }
    MulMonotone(1, OutSide(side, longest), longest);
    var q := side * OUTPUT_SIDE / longest;
    assert q * longest <= side * OUTPUT_SIDE;
    MulMonotone(OUTPUT_SIDE, longest, side);
    MulMonotone(side, longest, OUTPUT_SIDE);
    if q > side { MulMonotone(side + 1, q, longest); }
    if q > OUTPUT_SIDE { MulMonotone(OUTPUT_SIDE + 1, q, longest); }
  }

  /** Cells start at 0, follow each other without a gap, are not empty and end with the image. */
  lemma CellsFollow(k: nat, side: nat, out: nat)
    requires 1 <= out <= side
    ensures CellStart(0, side, out) == 0 && CellStart(out, side, out) == side
    ensures CellStart(k, side, out) < CellStart(k + 1, side, out) == CellEnd(k, side, out)
  {
    DivModUnique(out * side, out, side, 0);
    var q := k * side / out;
    assert (k + 1) * side == k * side + side;
    assert k * side >= out * q && out * (q + 1) == out * q + out;
    DivAtLeast((k + 1) * side, out, q + 1);
  }

  /** Every source coordinate lies in exactly one cell. */
  lemma {:induction false} CellOf(s: nat, n: nat, side: nat, out: nat) returns (k: nat)
    requires 1 <= out <= side && n <= out && s < CellStart(n, side, out)
    ensures k < n && CellStart(k, side, out) <= s < CellEnd(k, side, out)
  {
    hide CellStart, CellEnd;
    CellsFollow(0, side, out);
    CellsFollow(n - 1, side, out);
    if CellStart(n - 1, side, out) <= s {
      k := n - 1;
    } else {
      k := CellOf(s, n - 1, side, out);
    }
  }

  lemma {:induction false} StartsIncrease(j: nat, k: nat, side: nat, out: nat)
    requires 1 <= out <= side && j < k
    ensures CellEnd(j, side, out) <= CellStart(k, side, out)
  {
    hide CellStart, CellEnd;
    CellsFollow(k - 1, side, out);
    if j < k - 1 {
      StartsIncrease(j, k - 1, side, out);
    }
  }

  lemma CellUnique(s: nat, j: nat, k: nat, side: nat, out: nat)
    requires 1 <= out <= side
    requires CellStart(j, side, out) <= s < CellEnd(j, side, out)
             && CellStart(k, side, out) <= s < CellEnd(k, side, out)
    ensures j == k
  {
    hide CellStart, CellEnd;
    if j < k { StartsIncrease(j, k, side, out); }
    if k < j { StartsIncrease(k, j, side, out); }
  }

  // ----- Sums of luminance

  function RowSum(p: Picture, y: nat, left: nat, right: nat): nat
    requires Accepted(p) && y < p.h && left <= right <= p.w
  {
    if left == right then 0 else RowSum(p, y, left, right - 1) + LumaAt(p, right - 1, y)
  }

  function RectSum(p: Picture, left: nat, right: nat, top: nat, bottom: nat): nat
    requires Accepted(p) && left <= right <= p.w && top <= bottom <= p.h
  {
    if top == bottom then 0 else RectSum(p, left, right, top, bottom - 1) + RowSum(p, bottom - 1, left, right)
  }

  lemma {:induction false} RowSplits(p: Picture, y: nat, left: nat, middle: nat, right: nat)
    requires Accepted(p) && y < p.h && left <= middle <= right <= p.w
    ensures RowSum(p, y, left, right) == RowSum(p, y, left, middle) + RowSum(p, y, middle, right)
  {
    hide LumaAt;
    if middle < right { RowSplits(p, y, left, middle, right - 1); }
  }

  lemma {:induction false} RectSplitsAcross(p: Picture, left: nat, middle: nat, right: nat, top: nat, bottom: nat)
    requires Accepted(p) && left <= middle <= right <= p.w && top <= bottom <= p.h
    ensures RectSum(p, left, right, top, bottom)
            == RectSum(p, left, middle, top, bottom) + RectSum(p, middle, right, top, bottom)
  {
    hide RowSum;
    if top < bottom {
      RectSplitsAcross(p, left, middle, right, top, bottom - 1);
      RowSplits(p, bottom - 1, left, middle, right);
    }
  }

  lemma {:induction false} RectSplitsDown(p: Picture, left: nat, right: nat, top: nat, middle: nat, bottom: nat)
    requires Accepted(p) && left <= right <= p.w && top <= middle <= bottom <= p.h
    ensures RectSum(p, left, right, top, bottom)
            == RectSum(p, left, right, top, middle) + RectSum(p, left, right, middle, bottom)
  {
    hide RowSum;
    if middle < bottom { RectSplitsDown(p, left, right, top, middle, bottom - 1); }
  }

  lemma {:induction false} RowBound(p: Picture, y: nat, left: nat, right: nat)
    requires Accepted(p) && y < p.h && left <= right <= p.w
    ensures RowSum(p, y, left, right) <= 255 * (right - left)
  {
    if left < right { RowBound(p, y, left, right - 1); }
  }

  lemma {:induction false} RectBound(p: Picture, left: nat, right: nat, top: nat, bottom: nat)
    requires Accepted(p) && left <= right <= p.w && top <= bottom <= p.h
    ensures RectSum(p, left, right, top, bottom) <= 255 * ((bottom - top) * (right - left))
  {
    hide RowSum;
    if top < bottom {
      RectBound(p, left, right, top, bottom - 1);
      RowBound(p, bottom - 1, left, right);
      assert (bottom - top) * (right - left) == (bottom - 1 - top) * (right - left) + (right - left);
    }
  }

  // ----- The output

  datatype Size = Size(w: nat, h: nat)

  function OutputSize(p: Picture): Size {
    Size(OutSide(p.w, Longest(p)), OutSide(p.h, Longest(p)))
  }

  /** Every accepted image gets an output the code reader accepts, no side of which is longer than 960 or
      than the source. Small images keep their size; others are scaled so that the longer side is 960,
      with sides in proportion, rounded down but not to nothing. */
  lemma OutputFits(p: Picture)
    requires Accepted(p)
    ensures var out := OutputSize(p);
            && 1 <= out.w <= p.w && 1 <= out.h <= p.h && out.w <= OUTPUT_SIDE && out.h <= OUTPUT_SIDE
            && out.w <= FRAME_SIDE && out.h <= FRAME_SIDE && out.w * out.h <= MAX_PIXELS
            && (if p.w <= 960 && p.h <= 960 then out == Size(p.w, p.h)
                else var longest := Max(p.w, p.h);
                     && (out.w == 960 || out.h == 960)
                     && p.w * 960 < (out.w + 1) * longest && (out.w > 1 ==> out.w * longest <= p.w * 960)
                     && p.h * 960 < (out.h + 1) * longest && (out.h > 1 ==> out.h * longest <= p.h * 960))
    ensures p.w * OUTPUT_SIDE <= U32_MAX && p.h * OUTPUT_SIDE <= U32_MAX
    ensures OutputSize(p).w * p.w <= U32_MAX && OutputSize(p).h * p.h <= U32_MAX
  {
    var out := OutputSize(p);
    OutSideBounds(p.w, Longest(p));
    OutSideBounds(p.h, Longest(p));
    hide OutSide;
    MulMonotone(out.w, OUTPUT_SIDE, out.h);
    MulMonotone(out.w, OUTPUT_SIDE, p.w);
    MulMonotone(out.h, OUTPUT_SIDE, p.h);
  }

  lemma CellInside(p: Picture, x: nat, y: nat)
    requires Accepted(p) && x < OutputSize(p).w && y < OutputSize(p).h
    ensures var out := OutputSize(p);
            && CellStart(x, p.w, out.w) < CellEnd(x, p.w, out.w) <= p.w
            && CellStart(y, p.h, out.h) < CellEnd(y, p.h, out.h) <= p.h
  {
    OutputFits(p);
    var out := OutputSize(p);
    hide OutputSize, CellStart, CellEnd;
    CellsFollow(x, p.w, out.w);
    CellsFollow(y, p.h, out.h);
    if x + 1 < out.w { StartsIncrease(x, out.w, p.w, out.w); }
    if y + 1 < out.h { StartsIncrease(y, out.h, p.h, out.h); }
  }

  /** The sum of the cell `(x, y)`. */
  function CellSum(p: Picture, x: nat, y: nat): nat
    requires Accepted(p) && x < OutputSize(p).w && y < OutputSize(p).h
  {
    var out := OutputSize(p);
    CellInside(p, x, y);
    RectSum(p, CellStart(x, p.w, out.w), CellEnd(x, p.w, out.w), CellStart(y, p.h, out.h), CellEnd(y, p.h, out.h))
  }

  function CellCount(p: Picture, x: nat, y: nat): (n: nat)
    requires Accepted(p) && x < OutputSize(p).w && y < OutputSize(p).h
    ensures n >= 1
  {
    var out := OutputSize(p);
    CellInside(p, x, y);
    var a, b := CellEnd(y, p.h, out.h) - CellStart(y, p.h, out.h), CellEnd(x, p.w, out.w) - CellStart(x, p.w, out.w);
    MulMonotone(1, a, b);
    a * b
  }

  function CellMean(p: Picture, x: nat, y: nat): (mean: Pixel)
    requires Accepted(p) && x < OutputSize(p).w && y < OutputSize(p).h
  {
    MeanIsPixel(p, x, y);
    CellSum(p, x, y) / CellCount(p, x, y)
  }

  lemma MeanIsPixel(p: Picture, x: nat, y: nat)
    requires Accepted(p) && x < OutputSize(p).w && y < OutputSize(p).h
    ensures 0 <= CellSum(p, x, y) / CellCount(p, x, y) <= 255
  {
    hide Accepted, OutputSize, CellStart, CellEnd, RectSum, LumaAt;
    var out := OutputSize(p);
    OutputFits(p);
    CellInside(p, x, y);
    RectBound(p, CellStart(x, p.w, out.w), CellEnd(x, p.w, out.w), CellStart(y, p.h, out.h), CellEnd(y, p.h, out.h));
    var sum, n := CellSum(p, x, y), CellCount(p, x, y);
    assert sum <= 255 * n;
    hide CellSum, CellCount;
    QuotientBound(sum, n);
  }

  lemma QuotientBound(sum: nat, n: nat)
    requires n >= 1 && sum <= 255 * n
    ensures sum / n <= 255
  {
    var q := sum / n;
    assert n * q <= sum;
    if q > 255 { MulMonotone(256, q, n); }
  }

  ghost predicate AveragedUpTo(p: Picture, out: seq<Pixel>, n: int)
    requires Accepted(p)
  {
    var s := OutputSize(p);
    && IsImage(out, s.w, s.h)
    && forall x, y :: Inside(s.w, s.h, x, y) && Index(s.w, x, y) < n ==>
        PixelAt(out, s.w, s.h, x, y) == CellMean(p, x, y)
  }

  /** Every output pixel is the mean of its cell. */
  ghost predicate Averaged(p: Picture, out: seq<Pixel>)
    requires Accepted(p)
  {
    var size := OutputSize(p);
    && IsImage(out, size.w, size.h)
    && forall x, y :: Inside(size.w, size.h, x, y) ==> PixelAt(out, size.w, size.h, x, y) == CellMean(p, x, y)
  }

  lemma NextMean(p: Picture, out: seq<Pixel>, x: nat, y: nat)
    requires Accepted(p) && x < OutputSize(p).w && y < OutputSize(p).h
    requires AveragedUpTo(p, out, Index(OutputSize(p).w, x, y))
    ensures var i := Index(OutputSize(p).w, x, y);
            0 <= i < |out| && AveragedUpTo(p, out[i := CellMean(p, x, y)], Index(OutputSize(p).w, x + 1, y))
  {
    hide CellMean, PixelAt, OutputSize, Accepted, Index;
    var s := OutputSize(p);
    IndexInside(s.w, s.h, x, y);
    NextIndex(s.w, x, y);
    forall x', y' | Inside(s.w, s.h, x', y') && Index(s.w, x', y') < Index(s.w, x + 1, y)
      ensures PixelAt(out[Index(s.w, x, y) := CellMean(p, x, y)], s.w, s.h, x', y') == CellMean(p, x', y')
    {
      WriteOne(out, s.w, s.h, x, y, CellMean(p, x, y), x', y');
    }
  }

  lemma NothingAveraged(p: Picture, out: seq<Pixel>)
    requires Accepted(p) && IsImage(out, OutputSize(p).w, OutputSize(p).h)
    ensures AveragedUpTo(p, out, Index(OutputSize(p).w, 0, 0))
  {
    hide CellMean, PixelAt, OutputSize, Accepted;
    var s := OutputSize(p);
    assert Index(s.w, 0, 0) == 0;
    hide Index;
    forall x, y | Inside(s.w, s.h, x, y) ensures Index(s.w, x, y) >= 0 { IndexInside(s.w, s.h, x, y); }
  }

  method SumCell(p: Picture, left: nat, right: nat, top: nat, bottom: nat) returns (sum: nat)
    requires Accepted(p) && left <= right <= p.w && top <= bottom <= p.h
    ensures sum == RectSum(p, left, right, top, bottom)
  {
    hide LumaAt;
    sum := 0;
    for sourceY := top to bottom
      invariant sum == RectSum(p, left, right, top, sourceY)
    {
      ghost var above := sum;
      for sourceX := left to right
        invariant sum == above + RowSum(p, sourceY, left, sourceX)
      {
        sum := sum + LumaAt(p, sourceX, sourceY);
      }
    }
  }

  /** Refuses exactly the images that fail a check; every other one is averaged, cell by cell. */
  method Normalize(p: Picture) returns (r: Option<(seq<Pixel>, Size)>)
    ensures r.Some? <==> Accepted(p)
    ensures r.Some? <==>
            && 1 <= p.w <= 4096 && 1 <= p.h <= 4096 && p.w * p.h <= 4_194_304
            && p.channels in {1, 2, 3, 4} && |p.bytes| == p.w * p.h * p.channels
    ensures r.Some? ==> r.value.1 == OutputSize(p) && Averaged(p, r.value.0)
  {
    if !Accepted(p) {
      return None;
    }
    hide Accepted, OutputSize, Averaged;
    var luminance, size := Average(p);
    r := Some((luminance[..], size));
  }

  method Average(p: Picture) returns (luminance: array<Pixel>, size: Size)
    requires Accepted(p)
    ensures size == OutputSize(p) && Averaged(p, luminance[..])
  {
    hide Accepted, CellMean, OutputSize, AveragedUpTo, Index;
    size := OutputSize(p);
    luminance := new Pixel[size.w * size.h](_ => 0);
    NothingAveraged(p, luminance[..]);
    for y := 0 to size.h
      invariant AveragedUpTo(p, luminance[..], Index(size.w, 0, y))
    {
      for x := 0 to size.w
        invariant AveragedUpTo(p, luminance[..], Index(size.w, x, y))
      {
        var mean := Mean(p, x, y, size);
        NextMean(p, luminance[..], x, y);
        ghost var before := luminance[..];
        luminance[Index(size.w, x, y)] := mean;
        assert luminance[..] == before[Index(size.w, x, y) := mean];
      }
      RowEnd(size.w, y);
    }
    AllAveraged(p, luminance[..]);
  }

  lemma AllAveraged(p: Picture, out: seq<Pixel>)
    requires Accepted(p) && AveragedUpTo(p, out, Index(OutputSize(p).w, 0, OutputSize(p).h))
    ensures Averaged(p, out)
  {
    hide Accepted, CellMean, OutputSize, PixelAt, Index;
    var size := OutputSize(p);
    forall x, y | Inside(size.w, size.h, x, y) ensures PixelAt(out, size.w, size.h, x, y) == CellMean(p, x, y) {
      IndexBeforeEnd(size.w, size.h, x, y);
    }
  }

  method Mean(p: Picture, x: nat, y: nat, size: Size) returns (mean: Pixel)
    requires Accepted(p) && size == OutputSize(p) && x < size.w && y < size.h
    ensures mean == CellMean(p, x, y)
  {
    hide Accepted, OutputSize, RectSum, LumaAt;
    OutputFits(p);
    CellInside(p, x, y);
    MeanIsPixel(p, x, y);
    var top, left := y * p.h / size.h, x * p.w / size.w;
    var bottom, right := Max((y + 1) * p.h / size.h, top + 1), Max((x + 1) * p.w / size.w, left + 1);
    var sum := SumCell(p, left, right, top, bottom);
    var count := (bottom - top) * (right - left);
    mean := sum / count;
  }

  // ----- What the cells add up to

  function SumAcross(p: Picture, y: nat, n: nat): nat
    requires Accepted(p) && n <= OutputSize(p).w && y < OutputSize(p).h
  {
    if n == 0 then 0 else SumAcross(p, y, n - 1) + CellSum(p, n - 1, y)
  }

  function SumOfCells(p: Picture, n: nat): nat
    requires Accepted(p) && n <= OutputSize(p).h
  {
    if n == 0 then 0 else SumOfCells(p, n - 1) + SumAcross(p, n - 1, OutputSize(p).w)
  }

  lemma {:induction false} AcrossIsBand(p: Picture, y: nat, n: nat)
    requires Accepted(p) && n <= OutputSize(p).w && y < OutputSize(p).h
    ensures var out := OutputSize(p);
            && CellStart(n, p.w, out.w) <= p.w && CellEnd(y, p.h, out.h) <= p.h
            && CellStart(y, p.h, out.h) <= CellEnd(y, p.h, out.h)
            && SumAcross(p, y, n)
               == RectSum(p, 0, CellStart(n, p.w, out.w), CellStart(y, p.h, out.h), CellEnd(y, p.h, out.h))
  {
    hide Accepted, OutputSize, CellStart, CellEnd, RectSum, LumaAt;
    OutputFits(p);
    var out := OutputSize(p);
    var top, bottom := CellStart(y, p.h, out.h), CellEnd(y, p.h, out.h);
    CellInside(p, 0, y);
    CellsFollow(0, p.w, out.w);
    if n == 0 {
      EmptyRect(p, 0, top, bottom);
    } else {
      CellInside(p, n - 1, y);
      CellsFollow(n - 1, p.w, out.w);
      AcrossIsBand(p, y, n - 1);
      RectSplitsAcross(p, 0, CellStart(n - 1, p.w, out.w), CellStart(n, p.w, out.w), top, bottom);
    }
  }

  lemma {:induction false} EmptyRect(p: Picture, left: nat, top: nat, bottom: nat)
    requires Accepted(p) && left <= p.w && top <= bottom <= p.h
    ensures RectSum(p, left, left, top, bottom) == 0
  {
    if top < bottom { EmptyRect(p, left, top, bottom - 1); }
  }

  lemma {:induction false} CellsAddUpTo(p: Picture, n: nat)
    requires Accepted(p) && n <= OutputSize(p).h
    ensures CellStart(n, p.h, OutputSize(p).h) <= p.h
    ensures SumOfCells(p, n) == RectSum(p, 0, p.w, 0, CellStart(n, p.h, OutputSize(p).h))
  {
    hide Accepted, OutputSize, CellStart, CellEnd, SumAcross, LumaAt;
    OutputFits(p);
    var out := OutputSize(p);
    CellsFollow(0, p.h, out.h);
    CellsFollow(0, p.w, out.w);
    if n > 0 {
      CellsAddUpTo(p, n - 1);
      CellInside(p, 0, n - 1);
      CellsFollow(n - 1, p.h, out.h);
      AcrossIsBand(p, n - 1, out.w);
      hide RectSum;
      RectSplitsDown(p, 0, p.w, 0, CellStart(n - 1, p.h, out.h), CellStart(n, p.h, out.h));
    }
  }

  /** No source pixel is left out or counted twice: the cells' sums are the sum of the image. */
  lemma CellsConserveLuminance(p: Picture)
    requires Accepted(p)
    ensures SumOfCells(p, OutputSize(p).h) == RectSum(p, 0, p.w, 0, p.h)
  {
    OutputFits(p);
    CellsFollow(0, p.h, OutputSize(p).h);
    CellsAddUpTo(p, OutputSize(p).h);
  }

  /** An image of at most 960 pixels a side passes through pixel for pixel. */
  lemma SmallImagesPassThrough(p: Picture, x: nat, y: nat)
    requires Accepted(p) && p.w <= OUTPUT_SIDE && p.h <= OUTPUT_SIDE && x < p.w && y < p.h
    ensures OutputSize(p) == Size(p.w, p.h) && CellMean(p, x, y) == LumaAt(p, x, y)
  {
    hide Accepted, OutputSize, CellStart, CellEnd, LumaAt;
    OutputFits(p);
    OnePixelCell(x, p.w);
    OnePixelCell(y, p.h);
    assert CellCount(p, x, y) == 1;
    assert RowSum(p, y, x, x + 1) == RowSum(p, y, x, x) + LumaAt(p, x, y);
    assert RectSum(p, x, x + 1, y, y + 1) == RectSum(p, x, x + 1, y, y) + RowSum(p, y, x, x + 1);
  }

  lemma OnePixelCell(k: nat, side: nat)
    requires k < side
    ensures CellStart(k, side, side) == k && CellEnd(k, side, side) == k + 1
  {
    DivModUnique(k * side, side, k, 0);
    DivModUnique((k + 1) * side, side, k + 1, 0);
  }
}
