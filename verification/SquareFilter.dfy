/** Greyscale repairs of a captured code: the square minimum and maximum filters and the closing of
    light gaps made of them.

    An image is its pixels row by row. The filters run a horizontal and then a vertical pass, over
    windows clipped at the borders. */
module SquareFilter {
  import opened Arithmetic

  type Pixel = x: int | 0 <= x < 256

  /** Whether a filter picks the darkest or the lightest pixel of a window. */
  datatype Pick = Darkest | Lightest

  function Choose(p: Pick, a: Pixel, b: Pixel): Pixel {
    if p.Darkest? then Min(a, b) else Max(a, b)
  }

  // ----- Images

  predicate IsImage(image: seq<Pixel>, w: nat, h: nat) { |image| == w * h }

  predicate Inside(w: nat, h: nat, x: int, y: int) { 0 <= x < w && 0 <= y < h }

  function Index(w: nat, x: int, y: int): int { y * w + x }

  lemma IndexInside(w: nat, h: nat, x: int, y: int)
    requires Inside(w, h, x, y)
    ensures 0 <= Index(w, x, y) < w * h
    ensures Index(w, x, y) / w == y && Index(w, x, y) % w == x
  {
    DivModUnique(Index(w, x, y), w, y, x);
    MulMonotone(y + 1, h, w);
    assert (y + 1) * w == y * w + w;
  }

  function PixelAt(image: seq<Pixel>, w: nat, h: nat, x: int, y: int): Pixel
    requires IsImage(image, w, h) && Inside(w, h, x, y)
  {
    IndexInside(w, h, x, y);
    image[Index(w, x, y)]
  }

  // ----- Windows

  predicate Near(r: nat, a: int, b: int) { a - r <= b <= a + r }

  /** `(u, v)` is in the window of `(x, y)`, clipped to the image. */
  predicate InWindow(w: nat, h: nat, r: nat, x: int, y: int, u: int, v: int) {
    Inside(w, h, u, v) && Near(r, x, u) && Near(r, y, v)
  }

  /** `value` is the darkest (or lightest) pixel of the whole window of `(x, y)`. */
  ghost predicate IsExtreme(p: Pick, image: seq<Pixel>, w: nat, h: nat, r: nat, x: int, y: int, value: Pixel)
    requires IsImage(image, w, h)
  {
    && (exists u, v :: InWindow(w, h, r, x, y, u, v) && PixelAt(image, w, h, u, v) == value)
    && (forall u, v :: InWindow(w, h, r, x, y, u, v) ==> Choose(p, value, PixelAt(image, w, h, u, v)) == value)
  }

  /** The same along a row, and along a column. */
  ghost predicate IsRowExtreme(p: Pick, image: seq<Pixel>, w: nat, h: nat, r: nat, x: int, y: int, value: Pixel)
    requires IsImage(image, w, h) && Inside(w, h, x, y)
  {
    && (exists u :: 0 <= u < w && Near(r, x, u) && PixelAt(image, w, h, u, y) == value)
    && (forall u :: 0 <= u < w && Near(r, x, u) ==> Choose(p, value, PixelAt(image, w, h, u, y)) == value)
  }

  ghost predicate IsColumnExtreme(p: Pick, image: seq<Pixel>, w: nat, h: nat, r: nat, x: int, y: int, value: Pixel)
    requires IsImage(image, w, h) && Inside(w, h, x, y)
  {
    && (exists v :: 0 <= v < h && Near(r, y, v) && PixelAt(image, w, h, x, v) == value)
    && (forall v :: 0 <= v < h && Near(r, y, v) ==> Choose(p, value, PixelAt(image, w, h, x, v)) == value)
  }

  /** `out` is `image` after the square filter: every pixel is the extreme of its window. */
  ghost predicate Filtered(p: Pick, image: seq<Pixel>, out: seq<Pixel>, w: nat, h: nat, r: nat) {
    && IsImage(image, w, h) && IsImage(out, w, h)
    && forall x, y :: Inside(w, h, x, y) ==> IsExtreme(p, image, w, h, r, x, y, PixelAt(out, w, h, x, y))
  }

  // ----- The two passes

  ghost predicate RowsDone(p: Pick, image: seq<Pixel>, out: seq<Pixel>, w: nat, h: nat, r: nat, n: int) {
    && IsImage(image, w, h) && IsImage(out, w, h)
    && forall x, y :: Inside(w, h, x, y) && Index(w, x, y) < n ==>
        IsRowExtreme(p, image, w, h, r, x, y, PixelAt(out, w, h, x, y))
  }

  ghost predicate ColumnsDone(p: Pick, image: seq<Pixel>, out: seq<Pixel>, w: nat, h: nat, r: nat, n: int) {
    && IsImage(image, w, h) && IsImage(out, w, h)
    && forall x, y :: Inside(w, h, x, y) && Index(w, x, y) < n ==>
        IsColumnExtreme(p, image, w, h, r, x, y, PixelAt(out, w, h, x, y))
  }

  /** Writing the pixel of `(x, y)` changes no other pixel. */
  lemma WriteOne(out: seq<Pixel>, w: nat, h: nat, x: int, y: int, value: Pixel, x': int, y': int)
    requires IsImage(out, w, h) && Inside(w, h, x, y) && Inside(w, h, x', y')
    ensures 0 <= Index(w, x, y) < |out|
    ensures var after := out[Index(w, x, y) := value];
            PixelAt(after, w, h, x', y') == if x' == x && y' == y then value else PixelAt(out, w, h, x', y')
    ensures (Index(w, x', y') == Index(w, x, y)) <==> (x' == x && y' == y)
  {
    IndexInside(w, h, x, y);
    IndexInside(w, h, x', y');
  }

  lemma NextIndex(w: nat, x: int, y: int)
    ensures Index(w, x + 1, y) == Index(w, x, y) + 1
  {
  }

  lemma RowEnd(w: nat, y: int)
    ensures Index(w, w, y) == Index(w, 0, y + 1)
  {
    assert (y + 1) * w == y * w + w;
  }

  lemma NothingDone(p: Pick, image: seq<Pixel>, out: seq<Pixel>, w: nat, h: nat, r: nat)
    requires IsImage(image, w, h) && IsImage(out, w, h)
    ensures RowsDone(p, image, out, w, h, r, Index(w, 0, 0)) && ColumnsDone(p, image, out, w, h, r, Index(w, 0, 0))
  {
    assert Index(w, 0, 0) == 0;
    hide IsRowExtreme, IsColumnExtreme, PixelAt, Index;
    forall x, y | Inside(w, h, x, y) ensures Index(w, x, y) >= 0 { IndexInside(w, h, x, y); }
  }

  lemma NextRowPixel(p: Pick, image: seq<Pixel>, out: seq<Pixel>, w: nat, h: nat, r: nat, x: int, y: int, value: Pixel)
    requires Inside(w, h, x, y) && RowsDone(p, image, out, w, h, r, Index(w, x, y))
    requires IsRowExtreme(p, image, w, h, r, x, y, value)
    ensures 0 <= Index(w, x, y) < |out| && RowsDone(p, image, out[Index(w, x, y) := value], w, h, r, Index(w, x + 1, y))
  {
    hide IsRowExtreme, PixelAt, Index;
    IndexInside(w, h, x, y);
    NextIndex(w, x, y);
    forall x', y' | Inside(w, h, x', y') && Index(w, x', y') < Index(w, x + 1, y)
      ensures IsRowExtreme(p, image, w, h, r, x', y', PixelAt(out[Index(w, x, y) := value], w, h, x', y'))
    {
      WriteOne(out, w, h, x, y, value, x', y');
    }
  }

  lemma NextColumnPixel(p: Pick, image: seq<Pixel>, out: seq<Pixel>, w: nat, h: nat, r: nat, x: int, y: int,
                        value: Pixel)
    requires Inside(w, h, x, y) && ColumnsDone(p, image, out, w, h, r, Index(w, x, y))
    requires IsColumnExtreme(p, image, w, h, r, x, y, value)
    ensures 0 <= Index(w, x, y) < |out|
            && ColumnsDone(p, image, out[Index(w, x, y) := value], w, h, r, Index(w, x + 1, y))
  {
    hide IsColumnExtreme, PixelAt, Index;
    IndexInside(w, h, x, y);
    NextIndex(w, x, y);
    forall x', y' | Inside(w, h, x', y') && Index(w, x', y') < Index(w, x + 1, y)
      ensures IsColumnExtreme(p, image, w, h, r, x', y', PixelAt(out[Index(w, x, y) := value], w, h, x', y'))
    {
      WriteOne(out, w, h, x, y, value, x', y');
    }
  }

  method RowExtreme(p: Pick, image: array<Pixel>, w: nat, h: nat, r: nat, x: nat, y: nat) returns (value: Pixel)
    requires IsImage(image[..], w, h) && Inside(w, h, x, y)
    ensures IsRowExtreme(p, image[..], w, h, r, x, y, value)
  {
    IndexInside(w, h, x, y);
    value := image[Index(w, x, y)];
    assert value == PixelAt(image[..], w, h, x, y);
    var last := Min(x + r, w - 1);
    var u := if x >= r then x - r else 0;
    while u <= last
      invariant u <= last + 1 && (x - r <= u || u == 0)
      invariant exists k :: 0 <= k < w && Near(r, x, k) && PixelAt(image[..], w, h, k, y) == value
      invariant forall k :: 0 <= k < u && Near(r, x, k) ==> Choose(p, value, PixelAt(image[..], w, h, k, y)) == value
    {
      IndexInside(w, h, u, y);
      assert image[Index(w, u, y)] == PixelAt(image[..], w, h, u, y);
      value := Choose(p, value, image[Index(w, u, y)]);
      u := u + 1;
    }
  }

  method ColumnExtreme(p: Pick, image: array<Pixel>, w: nat, h: nat, r: nat, x: nat, y: nat) returns (value: Pixel)
    requires IsImage(image[..], w, h) && Inside(w, h, x, y)
    ensures IsColumnExtreme(p, image[..], w, h, r, x, y, value)
  {
    IndexInside(w, h, x, y);
    value := image[Index(w, x, y)];
    assert value == PixelAt(image[..], w, h, x, y);
    var last := Min(y + r, h - 1);
    var v := if y >= r then y - r else 0;
    while v <= last
      invariant v <= last + 1 && (y - r <= v || v == 0)
      invariant exists k :: 0 <= k < h && Near(r, y, k) && PixelAt(image[..], w, h, x, k) == value
      invariant forall k :: 0 <= k < v && Near(r, y, k) ==> Choose(p, value, PixelAt(image[..], w, h, x, k)) == value
    {
      IndexInside(w, h, x, v);
      assert image[Index(w, x, v)] == PixelAt(image[..], w, h, x, v);
      value := Choose(p, value, image[Index(w, x, v)]);
      v := v + 1;
    }
  }

  method HorizontalPass(p: Pick, image: array<Pixel>, w: nat, h: nat, r: nat) returns (out: array<Pixel>)
    requires IsImage(image[..], w, h)
    ensures fresh(out) && RowsDone(p, image[..], out[..], w, h, r, Index(w, 0, h))
  {
    hide IsRowExtreme, Index, RowsDone;
    out := new Pixel[image.Length](_ => 0);
    ghost var pixels := image[..];
    NothingDone(p, pixels, out[..], w, h, r);
    for y := 0 to h
      invariant image[..] == pixels && RowsDone(p, pixels, out[..], w, h, r, Index(w, 0, y))
    {
      for x := 0 to w
        invariant image[..] == pixels && RowsDone(p, pixels, out[..], w, h, r, Index(w, x, y))
      {
        var value := RowExtreme(p, image, w, h, r, x, y);
        NextRowPixel(p, pixels, out[..], w, h, r, x, y, value);
        ghost var before := out[..];
        out[Index(w, x, y)] := value;
        assert out[..] == before[Index(w, x, y) := value];
      }
      RowEnd(w, y);
    }
  }

  method VerticalPass(p: Pick, image: array<Pixel>, w: nat, h: nat, r: nat) returns (out: array<Pixel>)
    requires IsImage(image[..], w, h)
    ensures fresh(out) && ColumnsDone(p, image[..], out[..], w, h, r, Index(w, 0, h))
  {
    hide IsColumnExtreme, Index, ColumnsDone;
    out := new Pixel[image.Length](_ => 0);
    ghost var pixels := image[..];
    NothingDone(p, pixels, out[..], w, h, r);
    for y := 0 to h
      invariant image[..] == pixels && ColumnsDone(p, pixels, out[..], w, h, r, Index(w, 0, y))
    {
      for x := 0 to w
        invariant image[..] == pixels && ColumnsDone(p, pixels, out[..], w, h, r, Index(w, x, y))
      {
        var value := ColumnExtreme(p, image, w, h, r, x, y);
        NextColumnPixel(p, pixels, out[..], w, h, r, x, y, value);
        ghost var before := out[..];
        out[Index(w, x, y)] := value;
        assert out[..] == before[Index(w, x, y) := value];
      }
      RowEnd(w, y);
    }
  }

  /** The extreme of a column of row extremes is the extreme of the whole window. */
  lemma PassesCompose(p: Pick, image: seq<Pixel>, rows: seq<Pixel>, w: nat, h: nat, r: nat, x: int, y: int,
                      value: Pixel)
    requires IsImage(image, w, h) && IsImage(rows, w, h) && Inside(w, h, x, y)
    requires forall v :: 0 <= v < h ==> IsRowExtreme(p, image, w, h, r, x, v, PixelAt(rows, w, h, x, v))
    requires IsColumnExtreme(p, rows, w, h, r, x, y, value)
    ensures IsExtreme(p, image, w, h, r, x, y, value)
  {
    hide PixelAt;
    var v :| 0 <= v < h && Near(r, y, v) && PixelAt(rows, w, h, x, v) == value;
    var u :| 0 <= u < w && Near(r, x, u) && PixelAt(image, w, h, u, v) == value;
    assert InWindow(w, h, r, x, y, u, v);
    forall u, v | InWindow(w, h, r, x, y, u, v) ensures Choose(p, value, PixelAt(image, w, h, u, v)) == value {
      var row := PixelAt(rows, w, h, x, v);
      assert Choose(p, value, row) == value && Choose(p, row, PixelAt(image, w, h, u, v)) == row;
    }
  }

  lemma IndexBeforeEnd(w: nat, h: nat, x: int, y: int)
    requires Inside(w, h, x, y)
    ensures Index(w, x, y) < Index(w, 0, h)
  {
    IndexInside(w, h, x, y);
  }

  /** The two-pass filter picks the extreme of the full two-dimensional window of every pixel. */
  method SquareFilter(p: Pick, image: array<Pixel>, w: nat, h: nat, r: nat) returns (out: array<Pixel>)
    requires IsImage(image[..], w, h)
    ensures fresh(out) && Filtered(p, image[..], out[..], w, h, r)
  {
    hide IsRowExtreme, IsColumnExtreme, IsExtreme, PixelAt, Index;
    var horizontal := HorizontalPass(p, image, w, h, r);
    out := VerticalPass(p, horizontal, w, h, r);
    forall x, y | Inside(w, h, x, y)
      ensures IsExtreme(p, image[..], w, h, r, x, y, PixelAt(out[..], w, h, x, y))
    {
      IndexBeforeEnd(w, h, x, y);
      forall v | 0 <= v < h
        ensures IsRowExtreme(p, image[..], w, h, r, x, v, PixelAt(horizontal[..], w, h, x, v))
      {
        IndexBeforeEnd(w, h, x, v);
      }
      PassesCompose(p, image[..], horizontal[..], w, h, r, x, y, PixelAt(out[..], w, h, x, y));
    }
  }

  // ----- Closing light gaps

  /** The closing: the darkest of each window, then the lightest of each window of that. */
  ghost predicate Closed(image: seq<Pixel>, dark: seq<Pixel>, out: seq<Pixel>, w: nat, h: nat, r: nat) {
    Filtered(Darkest, image, dark, w, h, r) && Filtered(Lightest, dark, out, w, h, r)
  }

  method CloseLightGaps(image: array<Pixel>, w: nat, h: nat, r: nat) returns (out: array<Pixel>, ghost dark: seq<Pixel>)
    requires IsImage(image[..], w, h)
    ensures fresh(out) && Closed(image[..], dark, out[..], w, h, r)
  {
    hide Filtered;
    var darkened := SquareFilter(Darkest, image, w, h, r);
    dark := darkened[..];
    FilteredIsImage(Darkest, image[..], dark, w, h, r);
    out := SquareFilter(Lightest, darkened, w, h, r);
  }

  lemma FilteredIsImage(p: Pick, image: seq<Pixel>, out: seq<Pixel>, w: nat, h: nat, r: nat)
    requires Filtered(p, image, out, w, h, r)
    ensures IsImage(image, w, h) && IsImage(out, w, h)
  {
  }

  /** Every pixel of the window of `(x, y)` is at or above `t`. */
  ghost predicate LightWindow(image: seq<Pixel>, w: nat, h: nat, r: nat, x: int, y: int, t: int)
    requires IsImage(image, w, h)
  {
    forall u, v :: InWindow(w, h, r, x, y, u, v) ==> PixelAt(image, w, h, u, v) >= t
  }

  lemma DarkestThreshold(image: seq<Pixel>, out: seq<Pixel>, w: nat, h: nat, r: nat, x: int, y: int, t: int)
    requires Filtered(Darkest, image, out, w, h, r) && Inside(w, h, x, y)
    ensures PixelAt(out, w, h, x, y) >= t <==> LightWindow(image, w, h, r, x, y, t)
  {
    hide PixelAt;
    var value := PixelAt(out, w, h, x, y);
    assert IsExtreme(Darkest, image, w, h, r, x, y, value);
  }

  lemma LightestThreshold(image: seq<Pixel>, out: seq<Pixel>, w: nat, h: nat, r: nat, x: int, y: int, t: int)
    requires Filtered(Lightest, image, out, w, h, r) && Inside(w, h, x, y)
    ensures PixelAt(out, w, h, x, y) >= t
            <==> exists u, v :: InWindow(w, h, r, x, y, u, v) && PixelAt(image, w, h, u, v) >= t
  {
    hide PixelAt;
    var value := PixelAt(out, w, h, x, y);
    assert IsExtreme(Lightest, image, w, h, r, x, y, value);
  }

  lemma InWindowIsInside(w: nat, h: nat, r: nat, x: int, y: int)
    ensures forall u, v :: InWindow(w, h, r, x, y, u, v) ==> Inside(w, h, u, v)
  {
  }

  /** A pixel stays at or above `t` exactly when some window it is in is entirely at or above `t`. */
  lemma CloseThreshold(image: seq<Pixel>, dark: seq<Pixel>, out: seq<Pixel>, w: nat, h: nat, r: nat, x: int,
                       y: int, t: int)
    requires Closed(image, dark, out, w, h, r) && Inside(w, h, x, y)
    ensures PixelAt(out, w, h, x, y) >= t
            <==> exists u, v :: InWindow(w, h, r, x, y, u, v) && LightWindow(image, w, h, r, u, v, t)
  {
    hide PixelAt, LightWindow, Filtered, InWindow;
    FilteredIsImage(Darkest, image, dark, w, h, r);
    FilteredIsImage(Lightest, dark, out, w, h, r);
    LightestThreshold(dark, out, w, h, r, x, y, t);
    InWindowIsInside(w, h, r, x, y);
    forall u, v | InWindow(w, h, r, x, y, u, v)
      ensures PixelAt(dark, w, h, u, v) >= t <==> LightWindow(image, w, h, r, u, v, t)
    {
      DarkestThreshold(image, dark, w, h, r, u, v, t);
    }
  }

  /** Closing never makes a pixel lighter. */
  lemma CloseDarkens(image: seq<Pixel>, dark: seq<Pixel>, out: seq<Pixel>, w: nat, h: nat, r: nat, x: int, y: int)
    requires Closed(image, dark, out, w, h, r) && Inside(w, h, x, y)
    ensures PixelAt(out, w, h, x, y) <= PixelAt(image, w, h, x, y)
  {
    hide PixelAt, Filtered;
    FilteredIsImage(Darkest, image, dark, w, h, r);
    FilteredIsImage(Lightest, dark, out, w, h, r);
    var t := PixelAt(out, w, h, x, y);
    CloseThreshold(image, dark, out, w, h, r, x, y, t);
    var u, v :| InWindow(w, h, r, x, y, u, v) && LightWindow(image, w, h, r, u, v, t);
    assert InWindow(w, h, r, u, v, x, y);
  }

  /** A lighter image closes to a lighter image. */
  lemma CloseIsMonotone(a: seq<Pixel>, darkA: seq<Pixel>, outA: seq<Pixel>,
                        b: seq<Pixel>, darkB: seq<Pixel>, outB: seq<Pixel>,
                        w: nat, h: nat, r: nat, x: int, y: int)
    requires Closed(a, darkA, outA, w, h, r) && Closed(b, darkB, outB, w, h, r) && Inside(w, h, x, y)
    requires IsImage(a, w, h) && IsImage(b, w, h)
    requires forall u, v :: Inside(w, h, u, v) ==> PixelAt(a, w, h, u, v) <= PixelAt(b, w, h, u, v)
    ensures IsImage(outA, w, h) && IsImage(outB, w, h)
    ensures PixelAt(outA, w, h, x, y) <= PixelAt(outB, w, h, x, y)
  {
    hide PixelAt, Filtered;
    FilteredIsImage(Lightest, darkA, outA, w, h, r);
    FilteredIsImage(Lightest, darkB, outB, w, h, r);
    var t := PixelAt(outA, w, h, x, y);
    CloseThreshold(a, darkA, outA, w, h, r, x, y, t);
    CloseThreshold(b, darkB, outB, w, h, r, x, y, t);
    var u, v :| InWindow(w, h, r, x, y, u, v) && LightWindow(a, w, h, r, u, v, t);
    assert LightWindow(b, w, h, r, u, v, t);
  }

  /** Closing twice is closing once. */
  lemma CloseIsIdempotent(image: seq<Pixel>, dark: seq<Pixel>, out: seq<Pixel>, dark': seq<Pixel>, out': seq<Pixel>,
                          w: nat, h: nat, r: nat)
    requires Closed(image, dark, out, w, h, r) && Closed(out, dark', out', w, h, r)
    ensures out' == out
  {
    hide PixelAt, Filtered;
    FilteredIsImage(Lightest, dark, out, w, h, r);
    FilteredIsImage(Lightest, dark', out', w, h, r);
    FilteredIsImage(Darkest, image, dark, w, h, r);
    forall x, y | Inside(w, h, x, y) ensures PixelAt(out', w, h, x, y) == PixelAt(out, w, h, x, y) {
      CloseDarkens(out, dark', out', w, h, r, x, y);
      var t := PixelAt(out, w, h, x, y);
      CloseThreshold(image, dark, out, w, h, r, x, y, t);
      var u, v :| InWindow(w, h, r, x, y, u, v) && LightWindow(image, w, h, r, u, v, t);
      StaysLight(image, dark, out, w, h, r, u, v, t);
      CloseThreshold(out, dark', out', w, h, r, x, y, t);
    }
    SamePixels(out, out', w, h);
  }

  /** A window that is light in the image is still light after closing. */
  lemma StaysLight(image: seq<Pixel>, dark: seq<Pixel>, out: seq<Pixel>, w: nat, h: nat, r: nat, u: int, v: int, t: int)
    requires Closed(image, dark, out, w, h, r) && Inside(w, h, u, v)
    requires IsImage(image, w, h) && IsImage(out, w, h) && LightWindow(image, w, h, r, u, v, t)
    ensures LightWindow(out, w, h, r, u, v, t)
  {
    hide PixelAt, Filtered;
    forall x, y | InWindow(w, h, r, u, v, x, y) ensures PixelAt(out, w, h, x, y) >= t {
      assert InWindow(w, h, r, x, y, u, v);
      CloseThreshold(image, dark, out, w, h, r, x, y, t);
    }
  }

  lemma SamePixels(a: seq<Pixel>, b: seq<Pixel>, w: nat, h: nat)
    requires IsImage(a, w, h) && IsImage(b, w, h)
    requires forall x, y :: Inside(w, h, x, y) ==> PixelAt(a, w, h, x, y) == PixelAt(b, w, h, x, y)
    ensures a == b
  {
    forall i | 0 <= i < |a| ensures a[i] == b[i] {
      Coordinates(w, h, i);
      assert PixelAt(a, w, h, i % w, i / w) == PixelAt(b, w, h, i % w, i / w);
    }
  }

  lemma Coordinates(w: nat, h: nat, i: nat)
    requires i < w * h
    ensures w > 0 && Inside(w, h, i % w, i / w) && i / w * w + i % w == i
  {
    assert w > 0;
    var q := i / w;
    assert i == w * q + i % w;
    if q >= h { MulMonotone(h, q, w); }
  }

  /** A light gap of at most `2 * r` pixels between two dark ones in a row is filled: none of it
      stays at or above `t`. */
  lemma GapIsFilled(image: seq<Pixel>, dark: seq<Pixel>, out: seq<Pixel>, w: nat, h: nat, r: nat, a: int, b: int,
                    x: int, y: int, t: int)
    requires Closed(image, dark, out, w, h, r) && IsImage(image, w, h) && IsImage(out, w, h)
    requires Inside(w, h, a, y) && Inside(w, h, b, y) && a < x < b && b - a - 1 <= 2 * r
    requires PixelAt(image, w, h, a, y) < t && PixelAt(image, w, h, b, y) < t
    ensures PixelAt(out, w, h, x, y) < t
  {
    hide PixelAt, Filtered;
    CloseThreshold(image, dark, out, w, h, r, x, y, t);
    forall u, v | InWindow(w, h, r, x, y, u, v) ensures !LightWindow(image, w, h, r, u, v, t) {
      assert InWindow(w, h, r, u, v, a, y) || InWindow(w, h, r, u, v, b, y);
    }
  }

  /** The same for a gap between two dark pixels of a column, such as the space between two lines. */
  lemma ColumnGapIsFilled(image: seq<Pixel>, dark: seq<Pixel>, out: seq<Pixel>, w: nat, h: nat, r: nat, a: int,
                          b: int, x: int, y: int, t: int)
    requires Closed(image, dark, out, w, h, r) && IsImage(image, w, h) && IsImage(out, w, h)
    requires Inside(w, h, x, a) && Inside(w, h, x, b) && a < y < b && b - a - 1 <= 2 * r
    requires PixelAt(image, w, h, x, a) < t && PixelAt(image, w, h, x, b) < t
    ensures PixelAt(out, w, h, x, y) < t
  {
    hide PixelAt, Filtered;
    CloseThreshold(image, dark, out, w, h, r, x, y, t);
    forall u, v | InWindow(w, h, r, x, y, u, v) ensures !LightWindow(image, w, h, r, u, v, t) {
      assert InWindow(w, h, r, u, v, x, a) || InWindow(w, h, r, u, v, x, b);
    }
  }
}
