/**
 * The glyph mapper: a pixel's brightness is the truncated mean of its three
 * channels, and it selects one entry of a ten-character ramp that runs from
 * the densest glyph (dark) to a blank (light).
 */
module Glyph {
  import opened Pixels

  /** `ASCII_CHARS`: the ramp, darkest first. */
  const Ramp: string := "@%#*+=-:. "

  /** `c` is one of the ramp's glyphs. */
  predicate IsGlyph(c: char) {
    c in Ramp
  }

  /**
   * `(r + g + b) / 3` computed in `u32`: the sum is at most 765, so the
   * unsigned division truncates a non-negative value and nothing wraps.
   */
  function Brightness(p: Rgb): (v: nat)
    ensures v <= 255
    ensures 3 * v <= p.r + p.g + p.b < 3 * v + 3
  {
    (p.r + p.g + p.b) / 3
  }

  /**
   * `brightness * (ASCII_CHARS.len() - 1) / 255`, again in `u32`
   * (at most 255 * 9 = 2295, far below 2^32).
   */
  function GlyphIndex(brightness: nat): (i: nat)
    requires brightness <= 255
    ensures i < |Ramp|
    ensures 255 * i <= 9 * brightness < 255 * (i + 1)
  {
    brightness * (|Ramp| - 1) / 255
  }

  /** `ASCII_CHARS[char_idx] as char` for one pixel. */
  function GlyphOf(p: Rgb): (c: char)
    ensures IsGlyph(c)
  {
    Ramp[GlyphIndex(Brightness(p))]
  }

  /** The index falls in the band `[255 i / 9, 255 (i + 1) / 9)` and nowhere else. */
  lemma GlyphIndexBand(brightness: nat, i: nat)
    requires brightness <= 255
    ensures GlyphIndex(brightness) == i <==> 255 * i <= 9 * brightness < 255 * (i + 1)
  {
  }

  /** Brighter never selects an earlier (denser) glyph. */
  lemma GlyphIndexMonotone(b1: nat, b2: nat)
    requires b1 <= b2 <= 255
    ensures GlyphIndex(b1) <= GlyphIndex(b2)
  {
  }

  /** Black maps to the first entry `'@'` and full white to the last entry `' '`. */
  lemma GlyphExtremes()
    ensures GlyphOf(Rgb(0, 0, 0)) == Ramp[0] == '@'
    ensures GlyphOf(Rgb(255, 255, 255)) == Ramp[|Ramp| - 1] == ' '
  {
  }

  /** Every entry of the ramp is used: brightness `ceil(255 i / 9)` selects entry `i`. */
  lemma EveryGlyphReachable(i: nat)
    requires i < |Ramp|
    ensures (255 * i + 8) / 9 <= 255
    ensures GlyphIndex((255 * i + 8) / 9) == i
  {
    var b := (255 * i + 8) / 9;
    assert 9 * b <= 255 * i + 8 < 9 * b + 9;
    GlyphIndexBand(b, i);
  }
}
