/**
 * A raster image: a width, a height and `height` rows of `width` colours.
 * The pixel at column x and row y is `rows[y][x]`.
 */
module Raster {
  import opened Colors

  datatype Image = Image(width: nat, height: nat, rows: seq<seq<Color>>) {

    /** The image is rectangular and its rows agree with its size. */
    predicate Valid()
    {
      && |rows| == height
      && forall y :: 0 <= y < |rows| ==> |rows[y]| == width
    }

    /** Same width and height as `other`. */
    predicate SameSize(other: Image)
    {
      width == other.width && height == other.height
    }
  }

  /** An image of the given size whose every pixel is `fill`. */
  function Filled(width: nat, height: nat, fill: Color): Image
  {
    Image(width, height, seq(height, _ => seq(width, _ => fill)))
  }

  /**
   * The pixel data in scan order: row after row, left to right within a row,
   * which is the order in which `get_im_data` walks an image's data.
   */
  function PixelData(rows: seq<seq<Color>>): (data: seq<Color>)
    ensures forall c :: c in data <==> exists y, x :: 0 <= y < |rows| && 0 <= x < |rows[y]| && rows[y][x] == c
    decreases |rows|
  {
    if |rows| == 0 then []
    else
      var rest := PixelData(rows[1..]);
      assert forall c :: c in rest ==> exists y, x :: 0 <= y < |rows| && 0 <= x < |rows[y]| && rows[y][x] == c by {
        forall c | c in rest
          ensures exists y, x :: 0 <= y < |rows| && 0 <= x < |rows[y]| && rows[y][x] == c
        {
          var y, x :| 0 <= y < |rows[1..]| && 0 <= x < |rows[1..][y]| && rows[1..][y][x] == c;
          assert rows[y + 1][x] == c;
        }
      }
      assert forall y, x :: 0 <= y < |rows| && 0 <= x < |rows[y]| ==> rows[y][x] in rows[0] + rest by {
        forall y, x | 0 <= y < |rows| && 0 <= x < |rows[y]|
          ensures rows[y][x] in rows[0] + rest
        {
          if y > 0 {
            assert rows[1..][y - 1][x] == rows[y][x];
          }
        }
      }
      rows[0] + rest
  }

  /** The position in the scan of column x of row y, for rows of width w. */
  function ScanIndex(w: nat, y: nat, x: nat): nat
  {
    y * w + x
  }

  /**
   * The scan of a valid image holds width * height colours, and the pixel at
   * column x and row y is the colour at ScanIndex(width, y, x) of the scan.
   */
  lemma {:induction false} PixelDataRowMajor(img: Image)
    requires img.Valid()
    ensures |PixelData(img.rows)| == img.width * img.height
    ensures forall y, x :: 0 <= y < img.height && 0 <= x < img.width ==>
      ScanIndex(img.width, y, x) < |PixelData(img.rows)| && PixelData(img.rows)[ScanIndex(img.width, y, x)] == img.rows[y][x]
    decreases img.height
  {
    if img.height > 0 {
      var w, h := img.width, img.height;
      var rest := Image(w, h - 1, img.rows[1..]);
      PixelDataRowMajor(rest);
      var tail := PixelData(rest.rows);
      var data := PixelData(img.rows);
      assert data == img.rows[0] + tail;
      RowsAddUp(w, h);
      forall y, x | 0 <= y < h && 0 <= x < w
        ensures ScanIndex(w, y, x) < |data| && data[ScanIndex(w, y, x)] == img.rows[y][x]
      {
        RowOffset(w, h, y, x);
        if y > 0 {
          assert rest.rows[y - 1] == img.rows[y];
          ScanOfLaterRow(img.rows[0], tail, w, ScanIndex(w, y - 1, x), ScanIndex(w, y, x));
        }
      }
    }
  }

  /** A position past the first row of a scan reads from the scan of the remaining rows. */
  lemma ScanOfLaterRow(first: seq<Color>, tail: seq<Color>, w: nat, i: nat, j: nat)
    requires |first| == w && i < |tail| && j == w + i
    ensures j < |first + tail| && (first + tail)[j] == tail[i]
  {
  }

  /** A full image is one row followed by the remaining rows. */
  lemma RowsAddUp(w: nat, h: nat)
    requires h > 0
    ensures w * h == w + w * (h - 1)
  {
  }

  /** Where column x of row y lands in a scan of rows of width w. */
  lemma RowOffset(w: nat, h: nat, y: nat, x: nat)
    requires y < h && x < w
    ensures ScanIndex(w, y, x) < w * h
    ensures y > 0 ==> ScanIndex(w, y, x) == w + ScanIndex(w, y - 1, x)
  {
    assert y * w + x < (y + 1) * w;
    assert (y + 1) * w <= h * w;
  }
}
