/**
 * The text rasteriser: walks an already-resized RGB grid row by row and emits
 * one glyph per pixel, each row closed by a line break.
 */
module Raster {
  import opened Pixels
  import opened Glyph
  import opened Lines

  /** The glyphs of row `y`, left to right. */
  function RowText(img: Image, y: nat): string
    requires img.Valid() && y < img.height
  {
    seq(img.width, x requires 0 <= x < img.width => GlyphOf(img.pixels[y][x]))
  }

  /** The rows of the text frame, top to bottom. */
  function Rows(img: Image): seq<string>
    requires img.Valid()
  {
    seq(img.height, y requires 0 <= y < img.height => RowText(img, y))
  }

  /** The text frame of an image: its rows, each followed by a line break. */
  function Rasterise(img: Image): string
    requires img.Valid()
  {
    Join(Rows(img))
  }

  /** Offset of row `y` in a text frame whose rows hold `width` glyphs: each row takes `width + 1` characters. */
  function RowStart(width: nat, y: nat): nat
  {
    Offset(width + 1, y)
  }

  /** `RowStart` is the product behind the `String::with_capacity` reservation in `frame_to_ascii`. */
  lemma RowStartProduct(width: nat, y: nat)
    ensures RowStart(width, y) == y * (width + 1)
  {
    OffsetProduct(width + 1, y);
  }

  /**
   * `frame_to_ascii` from the point where the resized grid exists: the nested
   * loop pushes one glyph per pixel and a line break after every row.
   */
  method FrameToAscii(img: Image) returns (text: string)
    requires img.Valid()
    ensures text == Rasterise(img)
    ensures |text| == img.height * (img.width + 1)
  {
    text := "";
    var y := 0;
    while y < img.height
      invariant 0 <= y <= img.height
      invariant text == Join(Rows(img)[..y])
    {
      var x := 0;
      while x < img.width
        invariant 0 <= x <= img.width
        invariant text == Join(Rows(img)[..y]) + RowText(img, y)[..x]
      {
        text := text + [GlyphOf(img.pixels[y][x])];
        x := x + 1;
      }
      text := text + "\n";
      assert RowText(img, y)[..x] == RowText(img, y);
      JoinRowsStep(img, y);
      y := y + 1;
    }
    assert Rows(img)[..y] == Rows(img);
    RasteriseLength(img);
  }

  /** A text frame has `height * (width + 1)` characters, exactly the `String::with_capacity` reservation in `frame_to_ascii`. */
  lemma RasteriseLength(img: Image)
    requires img.Valid()
    ensures |Rasterise(img)| == img.height * (img.width + 1)
  {
    JoinLength(Rows(img), img.width);
    RowStartProduct(img.width, img.height);
  }

  /** The text of the first `y + 1` rows is that of the first `y` rows, then row `y` and its break. */
  lemma JoinRowsStep(img: Image, y: nat)
    requires img.Valid() && y < img.height
    ensures Join(Rows(img)[..y + 1]) == Join(Rows(img)[..y]) + RowText(img, y) + "\n"
  {
    var rows := Rows(img);
    assert rows[..y + 1] == rows[..y] + [RowText(img, y)];
    JoinAppend(rows[..y], [RowText(img, y)]);
  }

  /** A join of `w`-character rows has `w + 1` characters per row. */
  lemma {:induction false} JoinLength(rows: seq<string>, w: nat)
    requires forall k :: 0 <= k < |rows| ==> |rows[k]| == w
    ensures |Join(rows)| == RowStart(w, |rows|)
  {
    if |rows| > 0 {
      JoinLength(rows[1..], w);
      assert Join(rows) == rows[0] + "\n" + Join(rows[1..]);
    }
  }

  /**
   * One character of a join of `w`-character rows: offset `x <= w` of block
   * `y` is column `x` of row `y`, or its line break when `x == w`.
   */
  lemma {:induction false} JoinCell(rows: seq<string>, w: nat, y: nat, x: nat)
    requires forall k :: 0 <= k < |rows| ==> |rows[k]| == w
    requires y < |rows| && x <= w
    ensures RowStart(w, y) + x < |Join(rows)|
    ensures Join(rows)[RowStart(w, y) + x] == (rows[y] + "\n")[x]
  {
    var head := rows[0] + "\n";
    var tail := Join(rows[1..]);
    assert Join(rows) == head + tail;
    if y > 0 {
      JoinCell(rows[1..], w, y - 1, x);
      assert rows[1..][y - 1] == rows[y];
      assert (head + tail)[|head| + RowStart(w, y - 1) + x] == tail[RowStart(w, y - 1) + x];
    }
  }

  /**
   * Layout of a text frame: `height * (width + 1)` characters; row `y`
   * starts at `y * (width + 1)`, holds the glyph of each pixel of row `y` in
   * column order, and ends with a line break.
   */
  lemma RasteriseLayout(img: Image)
    requires img.Valid()
    ensures |Rasterise(img)| == RowStart(img.width, img.height)
    ensures forall y, x :: 0 <= y < img.height && 0 <= x < img.width ==>
              && RowStart(img.width, y) + x < |Rasterise(img)|
              && Rasterise(img)[RowStart(img.width, y) + x] == GlyphOf(img.pixels[y][x])
    ensures forall y :: 0 <= y < img.height ==>
              && RowStart(img.width, y) + img.width < |Rasterise(img)|
              && Rasterise(img)[RowStart(img.width, y) + img.width] == '\n'
  {
    var w := img.width;
    var rows := Rows(img);
    JoinLength(rows, w);
    forall y, x | 0 <= y < img.height && 0 <= x < w
      ensures RowStart(w, y) + x < |Join(rows)|
      ensures Join(rows)[RowStart(w, y) + x] == GlyphOf(img.pixels[y][x])
    {
      JoinCell(rows, w, y, x);
      assert (rows[y] + "\n")[x] == rows[y][x];
    }
    forall y | 0 <= y < img.height
      ensures RowStart(w, y) + w < |Join(rows)|
      ensures Join(rows)[RowStart(w, y) + w] == '\n'
    {
      JoinCell(rows, w, y, w);
    }
  }

  /** A solid white frame rasterises to blanks: every glyph position holds the ramp's last entry `' '`. */
  lemma WhiteFrameIsBlank(img: Image)
    requires img.Valid()
    requires forall y, x :: 0 <= y < img.height && 0 <= x < img.width ==> img.pixels[y][x] == Rgb(255, 255, 255)
    ensures forall y, x :: 0 <= y < img.height && 0 <= x < img.width ==>
              && RowStart(img.width, y) + x < |Rasterise(img)|
              && Rasterise(img)[RowStart(img.width, y) + x] == GlyphOf(img.pixels[y][x]) == ' '
  {
    RasteriseLayout(img);
    GlyphExtremes();
  }

  /** A text frame holds exactly one line break per pixel row. */
  lemma RasteriseBreaks(img: Image)
    requires img.Valid()
    ensures Count(Rasterise(img), '\n') == img.height
  {
    var rows := Rows(img);
    forall k | 0 <= k < |rows|
      ensures '\n' !in rows[k]
    {
      assert forall x :: 0 <= x < |rows[k]| ==> IsGlyph(rows[k][x]);
    }
    JoinCountBreaks(rows);
  }

  /** A row made of ramp glyphs only. */
  predicate GlyphRow(row: string) {
    forall x :: 0 <= x < |row| ==> IsGlyph(row[x])
  }

  /** Every row of a text frame consists of ramp glyphs only. */
  lemma RowsAreGlyphRows(img: Image)
    requires img.Valid()
    ensures forall y :: 0 <= y < img.height ==> GlyphRow(Rows(img)[y])
  {
  }

  /** Every character of a text frame is a ramp glyph or a line break. */
  lemma {:induction false} RasteriseAlphabet(img: Image)
    requires img.Valid()
    ensures forall i :: 0 <= i < |Rasterise(img)| ==> IsGlyph(Rasterise(img)[i]) || Rasterise(img)[i] == '\n'
  {
    JoinAlphabet(Rows(img));
  }

  /** A join of glyph rows holds glyphs and line breaks only. */
  lemma {:induction false} JoinAlphabet(rows: seq<string>)
    requires forall k :: 0 <= k < |rows| ==> GlyphRow(rows[k])
    ensures forall i :: 0 <= i < |Join(rows)| ==> IsGlyph(Join(rows)[i]) || Join(rows)[i] == '\n'
  {
    if |rows| > 0 {
      JoinAlphabet(rows[1..]);
      assert Join(rows) == rows[0] + "\n" + Join(rows[1..]);
    }
  }
}
