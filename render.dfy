/**
 * Rendering the Mandelbrot set into a row-major grey-scale buffer, on one
 * thread or split into horizontal bands of rows, one band per worker.
 */
module MandelbrotRender {
  import opened Wrappers
  import opened Slices
  import opened Mandelbrot

  /** A `u8` pixel value. */
  type byte = x: int | 0 <= x < 256

  /** The iteration limit `render` passes to `escape_time`. */
  const LIMIT: nat := 255

  /** The number of worker threads the program starts. */
  const THREADS: nat := 12

  // ---------------------------------------------------------------------
  // pixel_to_point, in exact arithmetic
  // ---------------------------------------------------------------------

  /**
   * The point of the complex plane at `pixel` of an image of `bounds`
   * (columns, rows) spanning `upperLeft` .. `lowerRight`.
   */
  function PixelToPoint(bounds: (nat, nat), pixel: (nat, nat), upperLeft: Complex, lowerRight: Complex): Complex
    requires bounds.0 > 0 && bounds.1 > 0
  {
    var width := lowerRight.re - upperLeft.re;
    var height := upperLeft.im - lowerRight.im;
    Complex(upperLeft.re + pixel.0 as real * width / bounds.0 as real,
            upperLeft.im - pixel.1 as real * height / bounds.1 as real)
  }

  /** The mapping of a whole image, as a function of the pixel. */
  function ImagePoint(bounds: (nat, nat), upperLeft: Complex, lowerRight: Complex): (nat, nat) -> Complex
    requires bounds.0 > 0 && bounds.1 > 0
  {
    (c: nat, r: nat) => PixelToPoint(bounds, (c, r), upperLeft, lowerRight)
  }

  lemma PixelToPointExample()
    ensures PixelToPoint((100, 200), (25, 175), Complex(-1.0, 1.0), Complex(1.0, -1.0)) == Complex(-0.5, -0.75)
  {
  }

  /** The corners of the pixels at the start of row `top` and at the end of row `top + height - 1`. */
  function BandUpperLeft(bounds: (nat, nat), top: nat, upperLeft: Complex, lowerRight: Complex): Complex
    requires bounds.0 > 0 && bounds.1 > 0
  {
    PixelToPoint(bounds, (0, top), upperLeft, lowerRight)
  }

  function BandLowerRight(bounds: (nat, nat), top: nat, height: nat, upperLeft: Complex, lowerRight: Complex): Complex
    requires bounds.0 > 0 && bounds.1 > 0
  {
    PixelToPoint(bounds, (bounds.0, top + height), upperLeft, lowerRight)
  }

  /**
   * In exact arithmetic a band's own viewport maps its pixel (c, r) to the
   * same point as the whole image maps (c, top + r).
   */
  lemma BandViewport(bounds: (nat, nat), top: nat, height: nat, upperLeft: Complex, lowerRight: Complex, c: nat, r: nat)
    requires bounds.0 > 0 && bounds.1 > 0 && height > 0
    ensures PixelToPoint((bounds.0, height), (c, r),
                         BandUpperLeft(bounds, top, upperLeft, lowerRight),
                         BandLowerRight(bounds, top, height, upperLeft, lowerRight))
            == PixelToPoint(bounds, (c, top + r), upperLeft, lowerRight)
  {
    BandViewportRe(bounds, top, height, upperLeft, lowerRight, c, r);
    BandViewportIm(bounds, top, height, upperLeft, lowerRight, c, r);
  }

  lemma BandViewportRe(bounds: (nat, nat), top: nat, height: nat, upperLeft: Complex, lowerRight: Complex, c: nat, r: nat)
    requires bounds.0 > 0 && bounds.1 > 0 && height > 0
    ensures PixelToPoint((bounds.0, height), (c, r),
                         BandUpperLeft(bounds, top, upperLeft, lowerRight),
                         BandLowerRight(bounds, top, height, upperLeft, lowerRight)).re
            == PixelToPoint(bounds, (c, top + r), upperLeft, lowerRight).re
  {
    ReAlgebra(upperLeft.re, lowerRight.re - upperLeft.re, bounds.0 as real, c as real);
  }

  lemma BandViewportIm(bounds: (nat, nat), top: nat, height: nat, upperLeft: Complex, lowerRight: Complex, c: nat, r: nat)
    requires bounds.0 > 0 && bounds.1 > 0 && height > 0
    ensures PixelToPoint((bounds.0, height), (c, r),
                         BandUpperLeft(bounds, top, upperLeft, lowerRight),
                         BandLowerRight(bounds, top, height, upperLeft, lowerRight)).im
            == PixelToPoint(bounds, (c, top + r), upperLeft, lowerRight).im
  {
    var ul := BandUpperLeft(bounds, top, upperLeft, lowerRight);
    var lr := BandLowerRight(bounds, top, height, upperLeft, lowerRight);
    var q := (upperLeft.im - lowerRight.im) / bounds.1 as real;
    PointIm(bounds, (0, top), upperLeft, lowerRight);
    PointIm(bounds, (bounds.0, top + height), upperLeft, lowerRight);
    PointIm((bounds.0, height), (c, r), ul, lr);
    PointIm(bounds, (c, top + r), upperLeft, lowerRight);
    ImAlgebra(upperLeft.im, q, top as real, height as real, r as real, (top + height) as real, (top + r) as real, ul.im, lr.im);
  }

  /** The imaginary part of `pixel_to_point`, as a multiple of the height of one pixel. */
  lemma PointIm(bounds: (nat, nat), pixel: (nat, nat), upperLeft: Complex, lowerRight: Complex)
    requires bounds.0 > 0 && bounds.1 > 0
    ensures PixelToPoint(bounds, pixel, upperLeft, lowerRight).im ==
            upperLeft.im - pixel.1 as real * ((upperLeft.im - lowerRight.im) / bounds.1 as real)
  {
    MulDiv(pixel.1 as real, upperLeft.im - lowerRight.im, bounds.1 as real);
  }

  lemma ReAlgebra(u: real, w: real, columns: real, c: real)
    requires columns > 0.0
    ensures var a := u + 0.0 * w / columns;
            var b := u + columns * w / columns;
            a + c * (b - a) / columns == u + c * w / columns
  {
    Cancel(columns, w);
    assert 0.0 * w / columns == 0.0;
  }

  lemma ImAlgebra(u: real, q: real, top: real, height: real, r: real, bottom: real, row: real, a: real, b: real)
    requires height > 0.0 && bottom == top + height && row == top + r
    requires a == u - top * q && b == u - bottom * q
    ensures a - r * ((a - b) / height) == u - row * q
  {
    Distribute(top, height, q);
    Distribute(top, r, q);
    assert a - b == height * q;
    Cancel(height, q);
  }

  lemma MulDiv(a: real, b: real, n: real)
    requires n != 0.0
    ensures a * b / n == a * (b / n)
  {
  }

  lemma Cancel(n: real, b: real)
    requires n != 0.0
    ensures n * b / n == b
  {
  }

  lemma Distribute(a: real, b: real, q: real)
    ensures (a + b) * q == a * q + b * q
  {
  }

  // ---------------------------------------------------------------------
  // render
  // ---------------------------------------------------------------------

  /** The shade of a pixel: black if the point did not escape, brighter the sooner it escaped. */
  function Intensity(count: Option<nat>): byte
  {
    match count
    case None => 0
    case Some(n) => 255 - n % 256
  }

  /**
   * A pixel is black exactly when its point stays bounded for all LIMIT
   * steps; otherwise it is 255 minus the step at which the point escaped.
   */
  lemma IntensityOfPoint<Z>(d: Dynamics<Z>, c: Z, i: nat)
    ensures Intensity(EscapeIndex(d, c, LIMIT)) == 0 <==> NeverEscapes(d, c, LIMIT)
    ensures EscapesAt(d, c, LIMIT, i) ==> Intensity(EscapeIndex(d, c, LIMIT)) == 255 - i
  {
    EscapeIndexSpec(d, c, LIMIT, i);
    if EscapeIndex(d, c, LIMIT).Some? {
      EscapeIndexSpec(d, c, LIMIT, EscapeIndex(d, c, LIMIT).value);
    }
  }

  /** A point that escapes sooner is drawn strictly brighter. */
  lemma IntensityMonotone(a: nat, b: nat)
    requires a < b < LIMIT
    ensures Intensity(Some(a)) > Intensity(Some(b)) > 0
  {
  }

  /** The shade `render` gives the pixel whose point is z. */
  function Shade<Z>(d: Dynamics<Z>, z: Z): byte
  {
    Intensity(EscapeIndex(d, z, LIMIT))
  }

  /** Row `row` of the image. */
  function PictureRow<Z>(d: Dynamics<Z>, columns: nat, row: nat, point: (nat, nat) -> Z): (p: seq<byte>)
    ensures |p| == columns
  {
    seq<byte>(columns, c requires 0 <= c < columns => Shade(d, point(c, row)))
  }

  /** The first `rows` rows of the image, one after another. */
  function Picture<Z>(d: Dynamics<Z>, columns: nat, rows: nat, point: (nat, nat) -> Z): (p: seq<byte>)
    ensures |p| == columns * rows
  {
    if rows == 0 then []
    else
      assert columns * rows == columns * (rows - 1) + columns;
      Picture(d, columns, rows - 1, point) + PictureRow(d, columns, rows - 1, point)
  }

  /** Row-major order: the cell (row, column) is at index row * columns + column. */
  lemma {:induction false} PictureAt<Z>(d: Dynamics<Z>, columns: nat, rows: nat, point: (nat, nat) -> Z, row: nat, column: nat)
    requires row < rows && column < columns
    ensures row * columns + column < columns * rows
    ensures Picture(d, columns, rows, point)[row * columns + column] == Shade(d, point(column, row))
  {
    RowMajorBound(row, column, columns, rows);
    if row < rows - 1 {
      PictureAt(d, columns, rows - 1, point, row, column);
    } else {
      assert row * columns == columns * (rows - 1);
    }
  }

  /** Every index of the buffer is the cell of exactly one (row, column). */
  lemma PictureIndex<Z>(d: Dynamics<Z>, columns: nat, rows: nat, point: (nat, nat) -> Z, k: nat)
    requires k < columns * rows
    ensures k / columns < rows && k % columns < columns
    ensures Picture(d, columns, rows, point)[k] == Shade(d, point(k % columns, k / columns))
  {
    RowOf(k, columns, rows);
    var row, column := k / columns, k % columns;
    PictureAt(d, columns, rows, point, row, column);
    assert row * columns + column == k;
  }

  lemma RowOf(k: nat, columns: nat, rows: nat)
    requires k < columns * rows
    ensures columns > 0 && k / columns < rows && k % columns < columns
    ensures (k / columns) * columns + k % columns == k
  {
    assert columns != 0;
    DivMod(k, columns);
    var row := k / columns;
    if row >= rows {
      MulMonotone(rows, row, columns);
    }
  }

  /** The picture depends only on the points of its cells. */
  lemma {:induction false} PictureExt<Z>(d: Dynamics<Z>, columns: nat, rows: nat, p1: (nat, nat) -> Z, p2: (nat, nat) -> Z)
    requires forall c: nat, r: nat :: c < columns && r < rows ==> p1(c, r) == p2(c, r)
    ensures Picture(d, columns, rows, p1) == Picture(d, columns, rows, p2)
  {
    if rows > 0 {
      PictureExt(d, columns, rows - 1, p1, p2);
      assert PictureRow(d, columns, rows - 1, p1) == PictureRow(d, columns, rows - 1, p2);
    }
  }

  /** The mapping of a lower part of the image, starting at row `top`. */
  function Shifted<Z>(point: (nat, nat) -> Z, top: nat): (nat, nat) -> Z
  {
    (c: nat, r: nat) => point(c, top + r)
  }

  /** The first top + height rows are the first top rows followed by the `height` rows below them. */
  lemma {:induction false} PictureSplit<Z>(d: Dynamics<Z>, columns: nat, top: nat, height: nat, point: (nat, nat) -> Z)
    ensures Picture(d, columns, top + height, point) ==
            Picture(d, columns, top, point) + Picture(d, columns, height, Shifted(point, top))
  {
    if height > 0 {
      PictureSplit(d, columns, top, height - 1, point);
      assert PictureRow(d, columns, top + height - 1, point) == PictureRow(d, columns, height - 1, Shifted(point, top));
    }
  }

  lemma RowMajorBound(row: nat, column: nat, columns: nat, rows: nat)
    requires row < rows && column < columns
    ensures row * columns + column < columns * rows
  {
    MulMonotone(row + 1, rows, columns);
    assert (row + 1) * columns == row * columns + columns;
  }

  lemma NextRow(offset: nat, columns: nat, row: nat, rows: nat)
    requires row < rows
    ensures offset + columns * row + columns == offset + columns * (row + 1) <= offset + columns * rows
  {
    MulMonotone(row + 1, rows, columns);
  }

  /**
   * `render`: fills `columns * rows` pixels starting at `offset` (the start
   * of the slice it is given), row by row, with the picture, and nothing else.
   */
  method Render<Z>(d: Dynamics<Z>, pixels: array<byte>, offset: nat, columns: nat, rows: nat, point: (nat, nat) -> Z)
    requires offset + columns * rows <= pixels.Length
    modifies pixels
    ensures pixels[offset .. offset + columns * rows] == Picture(d, columns, rows, point)
    ensures pixels[..offset] == old(pixels[..offset])
    ensures pixels[offset + columns * rows ..] == old(pixels[offset + columns * rows ..])
  {
    var end := offset + columns * rows;
    var base := offset;
    for row := 0 to rows
      invariant base == offset + columns * row <= end
      invariant pixels[offset .. base] == Picture(d, columns, row, point)
      invariant pixels[..offset] == old(pixels[..offset])
      invariant pixels[end..] == old(pixels[end..])
    {
      NextRow(offset, columns, row, rows);
      ghost var before := pixels[..];
      RenderRow(d, pixels, base, columns, row, point);
      RowWritten(before, pixels[..], offset, base, columns, end);
      base := base + columns;
    }
  }

  /** Writing only the row at `base` keeps what lies before it and after the window. */
  lemma RowWritten<T>(before: seq<T>, after: seq<T>, offset: nat, base: nat, columns: nat, end: nat)
    requires |before| == |after| && offset <= base && base + columns <= end <= |after|
    requires after[..base] == before[..base] && after[base + columns ..] == before[base + columns ..]
    ensures after[..offset] == before[..offset]
    ensures after[offset .. base] == before[offset .. base]
    ensures after[end..] == before[end..]
    ensures after[offset .. base + columns] == after[offset .. base] + after[base .. base + columns]
  {
    assert after[..offset] == after[..base][..offset];
    assert before[..offset] == before[..base][..offset];
    assert after[offset .. base] == after[..base][offset..];
    assert before[offset .. base] == before[..base][offset..];
    assert after[end..] == after[base + columns ..][end - (base + columns)..];
    assert before[end..] == before[base + columns ..][end - (base + columns)..];
  }

  /** The inner loop of `render`: fills one row of `columns` pixels at `base`, and nothing else. */
  method RenderRow<Z>(d: Dynamics<Z>, pixels: array<byte>, base: nat, columns: nat, row: nat, point: (nat, nat) -> Z)
    requires base + columns <= pixels.Length
    modifies pixels
    ensures pixels[base .. base + columns] == PictureRow(d, columns, row, point)
    ensures pixels[..base] == old(pixels[..base])
    ensures pixels[base + columns ..] == old(pixels[base + columns ..])
  {
    for column := 0 to columns
      invariant pixels[base .. base + column] == PictureRow(d, columns, row, point)[..column]
      invariant pixels[..base] == old(pixels[..base])
      invariant pixels[base + columns ..] == old(pixels[base + columns ..])
    {
      var count := EscapeTime(d, point(column, row), LIMIT);
      pixels[base + column] := Intensity(count);
    }
  }

  // ---------------------------------------------------------------------
  // The band partition
  // ---------------------------------------------------------------------

  /** `rows_per_band`: enough rows per band that `threads` bands hold them all. */
  function RowsPerBand(rows: nat, threads: nat): (rowsPerBand: nat)
    requires threads > 0
    ensures rowsPerBand >= 1 && rowsPerBand * threads > rows
  {
    DivMod(rows, threads);
    assert (rows / threads + 1) * threads == (rows / threads) * threads + threads;
    rows / threads + 1
  }

  /** The height of band i: full, except that the last band ends at the last row. */
  function BandHeight(rows: nat, rowsPerBand: nat, i: nat): nat
    requires rowsPerBand * i <= rows
  {
    Min(rowsPerBand, rows - rowsPerBand * i)
  }

  /** The arithmetic behind `BandLayout`, on named products. */
  lemma BandArithmetic(columns: nat, rows: nat, rowsPerBand: nat, top: nat, start: nat, size: nat, total: nat)
    requires columns > 0 && size == columns * rowsPerBand && start == columns * top && total == columns * rows
    requires start < total
    ensures top < rows
    ensures Min(start + size, total) - start == columns * Min(rowsPerBand, rows - top)
    ensures start + columns * Min(rowsPerBand, rows - top) <= total
  {
    if rows <= top {
      MulMonotone(rows, top, columns);
    }
    assert start + size == columns * (top + rowsPerBand);
    if rowsPerBand <= rows - top {
      MulMonotone(top + rowsPerBand, rows, columns);
    } else {
      MulMonotone(rows, top + rowsPerBand, columns);
      assert total == start + columns * (rows - top);
    }
  }

  lemma MulRearrange(a: nat, b: nat, c: nat)
    ensures a * (b * c) == c * (b * a)
  {
  }

  /** `chunks_mut(rows_per_band * columns)` of the buffer yields one chunk of whole rows per band. */
  lemma BandShape<T>(pixels: seq<T>, columns: nat, rows: nat, rowsPerBand: nat, i: nat)
    requires columns > 0 && rowsPerBand > 0 && |pixels| == columns * rows
    requires i < |Chunks(pixels, rowsPerBand * columns)|
    ensures rowsPerBand * i < rows
    ensures |Chunks(pixels, rowsPerBand * columns)[i]| == columns * BandHeight(rows, rowsPerBand, i)
    ensures BandHeight(rows, rowsPerBand, i) > 0
  {
    BandSlice(pixels, columns, rows, rowsPerBand, i);
  }

  /** Band i is the slice of the buffer from the start of row `rows_per_band * i` to the end of its last row. */
  lemma BandSlice<T>(pixels: seq<T>, columns: nat, rows: nat, rowsPerBand: nat, i: nat)
    requires columns > 0 && rowsPerBand > 0 && |pixels| == columns * rows
    requires i < |Chunks(pixels, rowsPerBand * columns)|
    ensures rowsPerBand * i < rows
    ensures |Chunks(pixels, rowsPerBand * columns)[i]| == columns * BandHeight(rows, rowsPerBand, i)
    ensures BandHeight(rows, rowsPerBand, i) > 0
    ensures columns * (rowsPerBand * i) + columns * BandHeight(rows, rowsPerBand, i) <= |pixels|
    ensures Chunks(pixels, rowsPerBand * columns)[i] ==
            pixels[columns * (rowsPerBand * i) .. columns * (rowsPerBand * i) + columns * BandHeight(rows, rowsPerBand, i)]
  {
    var size := rowsPerBand * columns;
    MulPositive(rowsPerBand, columns);
    ChunkAt(pixels, size, i);
    BandBounds(columns, rows, rowsPerBand, i);
    var a := columns * (rowsPerBand * i);
    var b := a + columns * BandHeight(rows, rowsPerBand, i);
    SliceCongruence(pixels, Chunks(pixels, size)[i], i * size, Min(i * size + size, |pixels|), a, b);
  }

  lemma MulPositive(a: nat, b: nat)
    requires a > 0 && b > 0
    ensures a * b > 0
  {
  }

  lemma SliceCongruence<T>(s: seq<T>, x: seq<T>, a: nat, b: nat, a': nat, b': nat)
    requires a <= b <= |s| && x == s[a..b] && a == a' && b == b'
    ensures x == s[a'..b']
  {
  }

  /** The arithmetic of `BandSlice`: where band i starts and ends, in rows and in pixels. */
  lemma BandBounds(columns: nat, rows: nat, rowsPerBand: nat, i: nat)
    requires columns > 0 && rowsPerBand > 0 && i * (rowsPerBand * columns) < columns * rows
    ensures rowsPerBand * i < rows
    ensures BandHeight(rows, rowsPerBand, i) > 0
    ensures columns * BandHeight(rows, rowsPerBand, i) > 0 && columns * (rowsPerBand * i) >= 0
    ensures rowsPerBand * columns > 0 && i * (rowsPerBand * columns) >= 0
    ensures i * (rowsPerBand * columns) == columns * (rowsPerBand * i)
    ensures Min(i * (rowsPerBand * columns) + rowsPerBand * columns, columns * rows) ==
            columns * (rowsPerBand * i) + columns * BandHeight(rows, rowsPerBand, i)
    ensures columns * (rowsPerBand * i) + columns * BandHeight(rows, rowsPerBand, i) <= columns * rows
  {
    var size := rowsPerBand * columns;
    var top := rowsPerBand * i;
    var start := i * size;
    MulRearrange(i, rowsPerBand, columns);
    BandArithmetic(columns, rows, rowsPerBand, top, start, size, columns * rows);
  }

  /** Together the bands reach the last row. */
  lemma BandsCoverRows<T>(pixels: seq<T>, columns: nat, rows: nat, rowsPerBand: nat)
    requires columns > 0 && rowsPerBand > 0 && |pixels| == columns * rows
    ensures rowsPerBand * |Chunks(pixels, rowsPerBand * columns)| >= rows
  {
    var n := |Chunks(pixels, rowsPerBand * columns)|;
    ChunksCover(pixels, rowsPerBand * columns);
    MulRearrange(n, rowsPerBand, columns);
    MulCancel(rowsPerBand * n, rows, columns);
  }

  lemma MulCancel(a: nat, b: nat, c: nat)
    requires c > 0 && c * a >= c * b
    ensures a >= b
  {
    if a < b {
      MulMonotone(a + 1, b, c);
    }
  }

  /** No more bands than threads: at most one worker per band. */
  lemma BandCountBound<T>(pixels: seq<T>, columns: nat, rows: nat, threads: nat)
    requires columns > 0 && threads > 0 && |pixels| == columns * rows
    ensures |Chunks(pixels, RowsPerBand(rows, threads) * columns)| <= threads
  {
    var rowsPerBand := RowsPerBand(rows, threads);
    MulMonotone(rows, rowsPerBand * threads, columns);
    assert (rowsPerBand * threads) * columns == (rowsPerBand * columns) * threads;
    ChunkCountBound(pixels, rowsPerBand * columns, threads);
  }

  /** With 12 rows and 12 threads each band is 2 rows tall, so only 6 workers start. */
  lemma TwelveRowsSixBands(pixels: seq<byte>)
    requires |pixels| == 10 * 12
    ensures RowsPerBand(12, THREADS) == 2
    ensures |Chunks(pixels, RowsPerBand(12, THREADS) * 10)| == 6
  {
    ChunkCount(pixels, 20);
  }

  /**
   * The work of one spawned thread: `render` on the band of `height` rows
   * starting at row `top`, with the band's own bounds and corners. It draws
   * those rows of the whole picture, leaves the rows above alone, and does
   * not touch the rows below, which belong to later bands.
   */
  method RenderBand(d: Dynamics<Complex>, pixels: array<byte>, bounds: (nat, nat), upperLeft: Complex, lowerRight: Complex, top: nat, height: nat)
    requires bounds.0 > 0 && bounds.1 > 0 && height > 0 && top + height <= bounds.1
    requires pixels.Length == bounds.0 * bounds.1
    requires pixels[..bounds.0 * top] == Picture(d, bounds.0, top, ImagePoint(bounds, upperLeft, lowerRight))
    modifies pixels
    ensures bounds.0 * (top + height) <= pixels.Length
    ensures pixels[..bounds.0 * (top + height)] == Picture(d, bounds.0, top + height, ImagePoint(bounds, upperLeft, lowerRight))
    ensures pixels[bounds.0 * (top + height)..] == old(pixels[bounds.0 * (top + height)..])
  {
    var columns := bounds.0;
    var bandBounds := (columns, height);
    var bandUpperLeft := BandUpperLeft(bounds, top, upperLeft, lowerRight);
    var bandLowerRight := BandLowerRight(bounds, top, height, upperLeft, lowerRight);
    var start := columns * top;
    BandEnd(columns, top, height, bounds.1);
    Render(d, pixels, start, columns, height, ImagePoint(bandBounds, bandUpperLeft, bandLowerRight));
    BandImage(d, bounds, upperLeft, lowerRight, top, height);
    BandsAccumulate(d, pixels[..], columns, bounds.1, top, height, ImagePoint(bounds, upperLeft, lowerRight));
  }

  /** The band's own picture is the whole image's picture from row `top` on, `height` rows of it. */
  lemma BandImage(d: Dynamics<Complex>, bounds: (nat, nat), upperLeft: Complex, lowerRight: Complex, top: nat, height: nat)
    requires bounds.0 > 0 && bounds.1 > 0 && height > 0
    ensures Picture(d, bounds.0, height, ImagePoint((bounds.0, height), BandUpperLeft(bounds, top, upperLeft, lowerRight),
                                                    BandLowerRight(bounds, top, height, upperLeft, lowerRight)))
            == Picture(d, bounds.0, height, Shifted(ImagePoint(bounds, upperLeft, lowerRight), top))
  {
    var bandPoint := ImagePoint((bounds.0, height), BandUpperLeft(bounds, top, upperLeft, lowerRight),
                                BandLowerRight(bounds, top, height, upperLeft, lowerRight));
    forall c: nat, r: nat | c < bounds.0 && r < height
      ensures bandPoint(c, r) == Shifted(ImagePoint(bounds, upperLeft, lowerRight), top)(c, r)
    {
      BandViewport(bounds, top, height, upperLeft, lowerRight, c, r);
    }
    PictureExt(d, bounds.0, height, bandPoint, Shifted(ImagePoint(bounds, upperLeft, lowerRight), top));
  }

  lemma BandEnd(columns: nat, top: nat, height: nat, rows: nat)
    requires top + height <= rows
    ensures columns * top + columns * height == columns * (top + height) <= columns * rows
  {
    MulMonotone(top + height, rows, columns);
  }

  /**
   * The band branch of `main`: band i is the chunk of the buffer starting at
   * row `top = rows_per_band * i`, `band.len() / columns` rows tall. The
   * bands are rendered one after another; they are disjoint slices.
   */
  method RenderBands(d: Dynamics<Complex>, pixels: array<byte>, bounds: (nat, nat), upperLeft: Complex, lowerRight: Complex, threads: nat)
    requires bounds.0 > 0 && bounds.1 > 0 && threads > 0 && pixels.Length == bounds.0 * bounds.1
    modifies pixels
    ensures pixels[..] == Picture(d, bounds.0, bounds.1, ImagePoint(bounds, upperLeft, lowerRight))
  {
    var columns, rows := bounds.0, bounds.1;
    ghost var point := ImagePoint(bounds, upperLeft, lowerRight);
    var rowsPerBand := RowsPerBand(rows, threads);
    ghost var original := pixels[..];
    var bands := Chunks(pixels[..], rowsPerBand * columns);
    BandsCoverRows(original, columns, rows, rowsPerBand);
    ghost var done: nat := 0;
    for i := 0 to |bands|
      invariant done == Min(rowsPerBand * i, rows)
      invariant columns * done <= pixels.Length
      invariant pixels[..columns * done] == Picture(d, columns, done, point)
    {
      var top := rowsPerBand * i;
      var height := |bands[i]| / columns;
      BandStep(original, bands, columns, rows, rowsPerBand, i, top, height);
      RenderBand(d, pixels, bounds, upperLeft, lowerRight, top, height);
      done := top + height;
    }
    assert done == rows;
  }

  /** A rendered prefix of rows followed by the next band's rows is a longer rendered prefix. */
  lemma BandsAccumulate<Z>(d: Dynamics<Z>, s: seq<byte>, columns: nat, rows: nat, top: nat, height: nat, point: (nat, nat) -> Z)
    requires top + height <= rows && |s| == columns * rows
    requires s[..columns * top] == Picture(d, columns, top, point)
    requires columns * top + columns * height <= |s|
    requires s[columns * top .. columns * top + columns * height] == Picture(d, columns, height, Shifted(point, top))
    ensures columns * (top + height) <= |s|
    ensures s[..columns * (top + height)] == Picture(d, columns, top + height, point)
  {
    PictureSplit(d, columns, top, height, point);
    BandEnd(columns, top, height, rows);
    var a, b := columns * top, columns * top + columns * height;
    assert s[..b] == s[..a] + s[a..b];
  }

  /** The rows of band i: rows `top` onward, `height = band.len() / columns` of them, ending where the next band starts. */
  lemma BandStep<T>(pixels: seq<T>, bands: seq<seq<T>>, columns: nat, rows: nat, rowsPerBand: nat, i: nat, top: int, height: int)
    requires columns > 0 && rowsPerBand > 0 && |pixels| == columns * rows
    requires bands == Chunks(pixels, rowsPerBand * columns) && i < |bands|
    requires top == rowsPerBand * i && height == |bands[i]| / columns
    ensures top >= 0 && height > 0 && top + height <= rows
    ensures Min(rowsPerBand * i, rows) == top
    ensures Min(rowsPerBand * (i + 1), rows) == top + height
  {
    BandShape(pixels, columns, rows, rowsPerBand, i);
    DivUnique(|bands[i]|, columns, BandHeight(rows, rowsPerBand, i), 0);
    NextBand(rowsPerBand, i, rows);
  }

  lemma NextBand(rowsPerBand: nat, i: nat, rows: nat)
    requires rowsPerBand * i <= rows
    ensures Min(rowsPerBand * (i + 1), rows) == rowsPerBand * i + BandHeight(rows, rowsPerBand, i)
  {
  }

  /**
   * The top of `main` after argument parsing: one `render` over the whole
   * buffer when there is at most one thread, the band split otherwise.
   * Either way the buffer ends up holding the same picture. A zero-width
   * image on several threads asks `chunks_mut` for chunks of size zero,
   * which panics; that panic is the `Err` result.
   */
  method RenderImage(d: Dynamics<Complex>, pixels: array<byte>, bounds: (nat, nat), upperLeft: Complex, lowerRight: Complex, threads: nat)
    returns (r: Result<(), string>)
    requires pixels.Length == bounds.0 * bounds.1
    modifies pixels
    ensures r.Err? <==> threads > 1 && bounds.0 == 0
    ensures r.Err? ==> r.error == "chunk size must be non-zero"
    ensures r.Ok? && bounds.0 > 0 && bounds.1 > 0 ==> pixels[..] == Picture(d, bounds.0, bounds.1, ImagePoint(bounds, upperLeft, lowerRight))
  {
    var columns, rows := bounds.0, bounds.1;
    if threads > 1 && columns == 0 {
      return Err("chunk size must be non-zero");
    }
    r := Ok(());
    if columns == 0 || rows == 0 {
      return;
    }
    if threads <= 1 {
      Render(d, pixels, 0, columns, rows, ImagePoint(bounds, upperLeft, lowerRight));
    } else {
      RenderBands(d, pixels, bounds, upperLeft, lowerRight, threads);
    }
  }
}
