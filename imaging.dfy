/** The image side of thumbnail_maker.py: `convert_to_jpeg` and `make_thumbnail`.
    Pixels are RGB triples throughout; Pillow's resampling filter and `ImageOps.fit`
    are kept symbolic and described only by the size they produce. */
module Imaging {
  import opened Results

  type Channel = x: int | 0 <= x < 256

  datatype Rgb = Rgb(red: Channel, green: Channel, blue: Channel)

  /** `make_thumbnail`'s default `fill_color`, `(255, 255, 255)`. */
  const White: Rgb := Rgb(255, 255, 255)

  /** `make_thumbnail`'s default `min_size`, the only one the script uses. */
  const DefaultMinSize: nat := 200

  /** A decoded image: Pillow's `mode` and `format` (the file format it was read from,
      `None` for an image made in memory), its size and its pixels, row by row. */
  datatype Raster = Raster(mode: string, format: Option<string>, width: nat, height: nat,
                           pixels: seq<seq<Rgb>>)
  {
    ghost predicate Valid()
    {
      |pixels| == height && forall row :: 0 <= row < height ==> |pixels[row]| == width
    }
  }

  /** What `make_thumbnail` returns: the pad canvas after `resize(..., ANTIALIAS)`, or
      the source after `ImageOps.fit(..., ANTIALIAS)`. Only the requested size of the
      result is modelled, not its resampled pixels. */
  datatype Thumbnail =
    | Resampled(canvas: Raster, width: nat, height: nat)
    | Fitted(source: Raster, width: nat, height: nat)

  /** `convert_to_jpeg` (lines 204-215): anything not read from a JPEG file is
      converted to RGB, which gives a new image without a file format. */
  function ConvertToJpeg(img: Raster): (r: Raster)
    ensures r.width == img.width && r.height == img.height && r.pixels == img.pixels
    ensures r.mode == "RGB" || r.format == Some("JPEG")
    ensures img.format == Some("JPEG") ==> r == img
    ensures img.format != Some("JPEG") ==> r.format == None
  {
    if img.format != Some("JPEG") then img.(mode := "RGB", format := None) else img
  }

  /** Converting twice is converting once. */
  lemma ConvertToJpegIdempotent(img: Raster)
    ensures ConvertToJpeg(ConvertToJpeg(img)) == ConvertToJpeg(img)
  {
  }

  function Max(a: int, b: int): int
  {
    if a < b then b else a
  }

  function Min(a: int, b: int): int
  {
    if a < b then a else b
  }

  /** The pad canvas side `max(min_size, x, y)` (line 193): large enough for the
      requested size and for the whole source. */
  function PadSide(minSize: nat, x: nat, y: nat): (side: nat)
    ensures side >= minSize && side >= x && side >= y
    ensures side == minSize || side == x || side == y
  {
    Max(minSize, Max(x, y))
  }

  /** The paste offset `(size - x) // 2` on one axis (line 195): the source fits, and
      the margin before it is the margin after it or one less. */
  function PadOffset(side: nat, extent: nat): (offset: nat)
    requires extent <= side
    ensures offset + extent <= side
    ensures offset <= side - extent - offset <= offset + 1
  {
    (side - extent) / 2
  }

  /** True iff the canvas cell `(row, col)` lies under an image of the given size
      pasted with its top-left corner at `(left, upper)`. */
  predicate Covers(left: int, upper: int, width: nat, height: nat, row: int, col: int)
  {
    upper <= row < upper + height && left <= col < left + width
  }

  /** The colour of the pad canvas at `(row, col)` once the source is pasted: the
      source pixel under it, or the fill colour. */
  function PadPixel(img: Raster, side: nat, fill: Rgb, row: nat, col: nat): Rgb
    requires img.Valid() && img.width <= side && img.height <= side
  {
    var left, upper := PadOffset(side, img.width), PadOffset(side, img.height);
    if Covers(left, upper, img.width, img.height, row, col)
    then img.pixels[row - upper][col - left]
    else fill
  }

  /** The pad canvas of `make_thumbnail` before the final resize (lines 192-195): a new
      RGB image of side `max(min_size, x, y)` filled with `fill`, with the source pasted
      at the centred offset. */
  function PadComposite(img: Raster, minSize: nat, fill: Rgb): (canvas: Raster)
    requires img.Valid()
    ensures canvas.Valid() && canvas.mode == "RGB" && canvas.format == None
    ensures canvas.width == canvas.height == PadSide(minSize, img.width, img.height)
  {
    var side := PadSide(minSize, img.width, img.height);
    Raster("RGB", None, side, side,
      seq(side, row requires 0 <= row < side =>
        seq(side, col requires 0 <= col < side => PadPixel(img, side, fill, row, col))))
  }

  /** No source pixel is clipped: each one lands on the canvas at its own position
      shifted by the paste offset. */
  lemma PadKeepsSource(img: Raster, minSize: nat, fill: Rgb, row: nat, col: nat)
    requires img.Valid() && row < img.height && col < img.width
    ensures var canvas := PadComposite(img, minSize, fill);
      var left, upper := PadOffset(canvas.width, img.width), PadOffset(canvas.height, img.height);
      && upper + row < canvas.height && left + col < canvas.width
      && canvas.pixels[upper + row][left + col] == img.pixels[row][col]
  {
  }

  /** Every canvas pixel outside the pasted rectangle has the fill colour. */
  lemma PadFillsRest(img: Raster, minSize: nat, fill: Rgb, row: nat, col: nat)
    requires img.Valid()
    requires row < PadSide(minSize, img.width, img.height)
    requires col < PadSide(minSize, img.width, img.height)
    ensures var canvas := PadComposite(img, minSize, fill);
      var left, upper := PadOffset(canvas.width, img.width), PadOffset(canvas.height, img.height);
      !Covers(left, upper, img.width, img.height, row, col) ==> canvas.pixels[row][col] == fill
  {
  }

  /** A source that is already a square of the requested side is its own pad canvas:
      no fill is added. */
  lemma {:induction false} PadSquareIsIdentity(img: Raster, minSize: nat, fill: Rgb)
    requires img.Valid() && img.width == minSize && img.height == minSize
    ensures PadComposite(img, minSize, fill).pixels == img.pixels
  {
    var canvas := PadComposite(img, minSize, fill);
    forall row | 0 <= row < minSize
      ensures canvas.pixels[row] == img.pixels[row]
    {
      forall col | 0 <= col < minSize
        ensures canvas.pixels[row][col] == img.pixels[row][col]
      {
        assert Covers(0, 0, minSize, minSize, row, col);
      }
    }
  }

  /** A 400 by 300 landscape source at the default size: a 400 by 400 canvas with the
      source pasted 50 rows down and flush left, fill in the 50 rows above it, and a
      200 by 200 thumbnail resized from that canvas. */
  lemma PadLandscapeExample(img: Raster, fill: Rgb, row: nat, col: nat, top: nat)
    requires img.Valid() && img.width == 400 && img.height == 300
    requires row < 300 && col < 400 && top < 50
    ensures var canvas := PadComposite(img, DefaultMinSize, fill);
      && canvas.width == canvas.height == 400
      && canvas.pixels[50 + row][col] == img.pixels[row][col]
      && canvas.pixels[top][col] == fill
      && ThumbnailOf(img, DefaultMinSize, fill, "pad") == Ok(Resampled(canvas, 200, 200))
  {
    PadKeepsSource(img, DefaultMinSize, fill, row, col);
    PadFillsRest(img, DefaultMinSize, fill, top, col);
  }

  /** A one-pixel source: a 200 by 200 canvas whose only source pixel is at row 99,
      column 99. */
  lemma PadSinglePixel(img: Raster, fill: Rgb, row: nat, col: nat)
    requires img.Valid() && img.width == 1 && img.height == 1
    requires row < DefaultMinSize && col < DefaultMinSize
    ensures var canvas := PadComposite(img, DefaultMinSize, fill);
      canvas.width == DefaultMinSize
      && canvas.pixels[row][col] == if row == 99 && col == 99 then img.pixels[0][0] else fill
  {
  }

  /** What `make_thumbnail` returns for a mode (lines 175-201): the pad canvas resized
      to `min_size` square, the source fitted to `min_size` square, or an error exit for
      any other mode. */
  function ThumbnailOf(img: Raster, minSize: nat, fill: Rgb, mode: string): (r: Result<Thumbnail>)
    requires img.Valid()
    ensures r.Ok? <==> mode == "pad" || mode == "crop"
    ensures r.Ok? ==> r.value.width == minSize && r.value.height == minSize
    ensures r.Fail? ==> r.error == ExitError("Thumbnail mode: " + mode + " is invalid.")
  {
    if mode == "pad" then Ok(Resampled(PadComposite(img, minSize, fill), minSize, minSize))
    else if mode == "crop" then Ok(Fitted(img, minSize, minSize))
    else Fail(ExitError("Thumbnail mode: " + mode + " is invalid."))
  }

  /** The pixels of a canvas, row by row. */
  function Rows(canvas: array2<Rgb>): (rows: seq<seq<Rgb>>)
    reads canvas
    ensures |rows| == canvas.Length0
    ensures forall row :: 0 <= row < canvas.Length0 ==> |rows[row]| == canvas.Length1
    ensures forall row, col :: 0 <= row < canvas.Length0 && 0 <= col < canvas.Length1 ==>
      rows[row][col] == canvas[row, col]
  {
    seq(canvas.Length0, row requires 0 <= row < canvas.Length0 reads canvas =>
      seq(canvas.Length1, col requires 0 <= col < canvas.Length1 reads canvas => canvas[row, col]))
  }

  /** `Image.paste(img, (left, upper))` without a mask: every canvas cell under the
      source takes the source pixel, the rest keep their colour, and the part of the
      source that falls outside the canvas is dropped. */
  method Paste(canvas: array2<Rgb>, img: Raster, left: int, upper: int)
    requires img.Valid()
    modifies canvas
    ensures forall row, col :: 0 <= row < canvas.Length0 && 0 <= col < canvas.Length1 ==>
      canvas[row, col] ==
        if Covers(left, upper, img.width, img.height, row, col)
        then img.pixels[row - upper][col - left]
        else old(canvas[row, col])
  {
    var top, bottom := Max(0, upper), Min(canvas.Length0, upper + img.height);
    var first, last := Max(0, left), Min(canvas.Length1, left + img.width);
    if top < bottom && first < last {
      for row := top to bottom
        invariant forall r, c :: 0 <= r < canvas.Length0 && 0 <= c < canvas.Length1 ==>
          canvas[r, c] ==
            if Covers(left, upper, img.width, img.height, r, c) && r < row
            then img.pixels[r - upper][c - left]
            else old(canvas[r, c])
      {
        for col := first to last
          invariant forall r, c :: 0 <= r < canvas.Length0 && 0 <= c < canvas.Length1 ==>
            canvas[r, c] ==
              if Covers(left, upper, img.width, img.height, r, c) && (r < row || (r == row && c < col))
              then img.pixels[r - upper][c - left]
              else old(canvas[r, c])
        {
          canvas[row, col] := img.pixels[row - upper][col - left];
        }
      }
    }
  }

  /** Rows that hold the pad pixel at every position are the pixels of the pad canvas. */
  lemma PadRows(img: Raster, minSize: nat, fill: Rgb, rows: seq<seq<Rgb>>)
    requires img.Valid()
    requires var side := PadSide(minSize, img.width, img.height);
      && |rows| == side
      && (forall row :: 0 <= row < side ==> |rows[row]| == side)
      && forall row, col :: 0 <= row < side && 0 <= col < side ==>
        rows[row][col] == PadPixel(img, side, fill, row, col)
    ensures Raster("RGB", None, |rows|, |rows|, rows) == PadComposite(img, minSize, fill)
  {
    var expected := PadComposite(img, minSize, fill);
    forall row | 0 <= row < |rows|
      ensures rows[row] == expected.pixels[row]
    {
    }
  }

  /** `make_thumbnail` (lines 175-201): in pad mode a canvas is allocated, filled and
      pasted onto in place before the resize. */
  method MakeThumbnail(img: Raster, minSize: nat, fill: Rgb, mode: string) returns (r: Result<Thumbnail>)
    requires img.Valid()
    ensures r == ThumbnailOf(img, minSize, fill, mode)
  {
    if mode == "pad" {
      var x, y := img.width, img.height;
      var size := PadSide(minSize, x, y);
      var canvas := new Rgb[size, size]((_, _) => fill);
      Paste(canvas, img, PadOffset(size, x), PadOffset(size, y));
      var rows := Rows(canvas);
      forall row, col | 0 <= row < size && 0 <= col < size
        ensures rows[row][col] == PadPixel(img, size, fill, row, col)
      {
        assert rows[row][col] == canvas[row, col];
      }
      PadRows(img, minSize, fill, rows);
      r := Ok(Resampled(Raster("RGB", None, size, size, rows), minSize, minSize));
    } else if mode == "crop" {
      r := Ok(Fitted(img, minSize, minSize));
    } else {
      r := Fail(ExitError("Thumbnail mode: " + mode + " is invalid."));
    }
  }
}
