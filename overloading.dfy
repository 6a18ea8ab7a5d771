/**
 * A flat image buffer indexed by row: `image[row]` is the slice of the
 * pixels in that row, and `image[row][column] = v` writes through it.
 */
module Overloading {
  import opened Decimal
  import opened Slices

  /** `Image<P>`: `width * height` pixels, row after row. */
  class Image<P> {
    const pixels: array<P>
    const width: nat
    const height: nat

    /** `Image::new`: every pixel is `P::default()`, given here as `default`. */
    constructor (width: nat, height: nat, default: P)
      requires width * height <= USIZE_MAX
      ensures this.width == width && this.height == height
      ensures fresh(pixels) && pixels.Length == width * height
      ensures forall i :: 0 <= i < pixels.Length ==> pixels[i] == default
    {
      this.width := width;
      this.height := height;
      pixels := new P[width * height](_ => default);
    }

    /** The slice `start..start + width` with `start = row * width` lies inside the buffer; otherwise indexing panics. */
    predicate RowInBounds(row: nat)
    {
      row * width + width <= pixels.Length
    }

    /** `image[row][column]` is inside its row; otherwise the slice index panics. */
    predicate CellInBounds(row: nat, column: nat)
    {
      RowInBounds(row) && column < width
    }

    /** `Index::index`: the pixels of one row, `width` of them, starting at `row * width`. */
    function Row(row: nat): (r: seq<P>)
      reads pixels
      requires RowInBounds(row)
      ensures |r| == width
      ensures forall column :: 0 <= column < width ==> r[column] == pixels[row * width + column]
    {
      pixels[row * width .. row * width + width]
    }

    /** `image[row][column] = value` through `IndexMut::index_mut`: one pixel changes. */
    method Set(row: nat, column: nat, value: P)
      requires CellInBounds(row, column)
      modifies pixels
      ensures pixels[..] == old(pixels[..])[row * width + column := value]
      ensures Row(row) == old(Row(row))[column := value]
      ensures forall r :: RowInBounds(r) && r != row ==> Row(r) == old(Row(r))
    {
      pixels[row * width + column] := value;
      forall r: nat | RowInBounds(r) && r != row
        ensures Row(r) == old(Row(r))
      {
        forall c | 0 <= c < width
          ensures Row(r)[c] == old(Row(r))[c]
        {
          RowsDisjoint(width, r, c, row, column);
        }
      }
    }
  }

  /** Cells of two different rows never share an index: the row slices do not overlap. */
  lemma RowsDisjoint(width: nat, row1: nat, column1: nat, row2: nat, column2: nat)
    requires column1 < width && column2 < width && row1 != row2
    ensures row1 * width + column1 != row2 * width + column2
  {
    if row1 < row2 {
      MulMonotone(row1 + 1, row2, width);
    } else {
      MulMonotone(row2 + 1, row1, width);
    }
  }

  /**
   * `main`: a 10 by 10 image of zeros whose first row is set to 1, ..., 10.
   * Column 10 is outside every row, so `image[0][10]` and `image[2][10]` panic.
   */
  method ImageDemo() returns (row0: seq<int>, others: seq<int>, columnTenInBounds: bool)
    ensures row0 == [1, 2, 3, 4, 5, 6, 7, 8, 9, 10]
    ensures others == seq(90, _ => 0)
    ensures !columnTenInBounds
  {
    var image := new Image<int>(10, 10, 0);
    assert image.pixels[..] == seq(100, _ => 0);
    image.Set(0, 0, 1);
    image.Set(0, 1, 2);
    image.Set(0, 2, 3);
    image.Set(0, 3, 4);
    image.Set(0, 4, 5);
    image.Set(0, 5, 6);
    image.Set(0, 6, 7);
    image.Set(0, 7, 8);
    image.Set(0, 8, 9);
    image.Set(0, 9, 10);
    ghost var written := seq(100, _ => 0)[0 := 1][1 := 2][2 := 3][3 := 4][4 := 5][5 := 6][6 := 7][7 := 8][8 := 9][9 := 10];
    assert image.pixels[..] == written;
    FirstRowWritten(seq(100, _ => 0), written);
    row0 := image.Row(0);
    assert row0 == image.pixels[..][..10];
    others := image.pixels[10..];
    assert others == image.pixels[..][10..];
    columnTenInBounds := image.CellInBounds(0, 10) || image.CellInBounds(2, 10);
  }

  /** The ten writes of `main` fill the first row with 1..10 and leave the other rows zero. */
  lemma FirstRowWritten(zeros: seq<int>, written: seq<int>)
    requires zeros == seq(100, _ => 0)
    requires written == zeros[0 := 1][1 := 2][2 := 3][3 := 4][4 := 5][5 := 6][6 := 7][7 := 8][8 := 9][9 := 10]
    ensures written[..10] == [1, 2, 3, 4, 5, 6, 7, 8, 9, 10]
    ensures written[10..] == seq(90, _ => 0)
  {
    assert written[10..] == zeros[10..];
  }
}
