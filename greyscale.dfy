/** Brightness reduction (`convert_to_array` in main.py): an RGB image becomes a
    grid with one row per image row and one entry per pixel, each entry the
    equal-weight mean of the pixel's three channels rounded to the nearest whole
    number. */
module Greyscale {

  /** One 8-bit colour channel; the image has already been converted to RGB. */
  type Channel = c: int | 0 <= c <= 255

  datatype Pixel = Pixel(r: Channel, g: Channel, b: Channel)

  /** An RGB image of `width` columns and `height` rows, stored row by row. */
  datatype RgbImage = RgbImage(width: nat, height: nat, rows: seq<seq<Pixel>>) {

    predicate Valid() {
      |rows| == height && forall y :: 0 <= y < height ==> |rows[y]| == width
    }

    /** PIL's `getpixel((x, y))`: column `x`, row `y`. */
    function GetPixel(x: nat, y: nat): Pixel
      requires Valid() && x < width && y < height
    {
      rows[y][x]
    }
  }

  /** Python 3's `round` to zero decimals: the nearest integer, and on a tie the even
      one. */
  function RoundHalfEven(x: real): (n: int)
    ensures x - 0.5 <= n as real <= x + 0.5
    ensures (n as real == x - 0.5 || n as real == x + 0.5) ==> n % 2 == 0
  {
    var f := x.Floor;
    var frac := x - f as real;
    if frac < 0.5 then f
    else if frac > 0.5 then f + 1
    else if f % 2 == 0 then f
    else f + 1
  }

  /** A third of a whole number is never halfway between two integers, so rounding it
      needs no tie rule, and the rounded mean is a plain integer quotient. */
  lemma RoundedThirdIsQuotient(s: nat)
    ensures var x := s as real / 3.0; x - x.Floor as real != 0.5
    ensures RoundHalfEven(s as real / 3.0) == (s + 1) / 3
  {
    var x := s as real / 3.0;
    assert s == 3 * (s / 3) + s % 3;
    assert x.Floor == s / 3;
    var q := (s + 1) / 3;
    var n := RoundHalfEven(x);
    assert 3 * q - 1 <= s <= 3 * q + 1;
    assert 3.0 * x == s as real;
    assert q as real - 1.0 / 3.0 <= x <= q as real + 1.0 / 3.0;
    assert -1 < n - q < 1;
  }

  /** Brightness of one pixel: `round((r + b + g) / 3)`, held as a whole number. */
  function Grey(p: Pixel): (v: int)
    ensures 3 * v - 1 <= p.r + p.g + p.b <= 3 * v + 1
    ensures v == (p.r + p.g + p.b + 1) / 3
    ensures 0 <= v <= 255
  {
    RoundedThirdIsQuotient(p.r + p.b + p.g);
    RoundHalfEven((p.r + p.b + p.g) as real / 3.0)
  }

  /** A grey pixel keeps its level. */
  lemma GreyOfGreyPixel(v: Channel)
    ensures Grey(Pixel(v, v, v)) == v
  {
  }

  /** The three channels weigh the same: any reordering gives the same brightness. */
  lemma GreyIgnoresChannelOrder(p: Pixel)
    ensures Grey(Pixel(p.r, p.b, p.g)) == Grey(p)
    ensures Grey(Pixel(p.g, p.r, p.b)) == Grey(p)
    ensures Grey(Pixel(p.g, p.b, p.r)) == Grey(p)
    ensures Grey(Pixel(p.b, p.r, p.g)) == Grey(p)
    ensures Grey(Pixel(p.b, p.g, p.r)) == Grey(p)
  {
  }

  /** A brightness grid of `height` rows of `width` entries, each in 0..255. */
  predicate IsBrightnessGrid(grid: seq<seq<int>>, width: nat, height: nat) {
    && |grid| == height
    && forall y :: 0 <= y < height ==>
         |grid[y]| == width && forall x :: 0 <= x < width ==> 0 <= grid[y][x] <= 255
  }

  /** The pixel loop: for every row `y`, a row of the brightnesses of pixels
      `(0, y)` .. `(width - 1, y)`, appended in order. */
  method ConvertToArray(img: RgbImage) returns (grid: seq<seq<int>>)
    requires img.Valid()
    ensures IsBrightnessGrid(grid, img.width, img.height)
    ensures forall y, x :: 0 <= y < img.height && 0 <= x < img.width ==>
              grid[y][x] == Grey(img.GetPixel(x, y))
  {
    grid := [];
    for y := 0 to img.height
      invariant |grid| == y
      invariant forall j :: 0 <= j < y ==> |grid[j]| == img.width
      invariant forall j, x :: 0 <= j < y && 0 <= x < img.width ==>
                  grid[j][x] == Grey(img.GetPixel(x, j))
    {
      var row := [];
      for x := 0 to img.width
        invariant |row| == x
        invariant forall i :: 0 <= i < x ==> row[i] == Grey(img.GetPixel(i, y))
      {
        var p := img.GetPixel(x, y);
        var average := (p.r + p.b + p.g) as real / 3.0;
        row := row + [RoundHalfEven(average)];
      }
      grid := grid + [row];
    }
  }
}
