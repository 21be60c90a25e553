/** The font as the tool queries it. The font library is outside the model:
    each query it answers is a field of `Font`, so every lemma holds for every font. */
module FontSource {

  /** A JavaScript number, kept as its IEEE 754 bit pattern; no arithmetic on it is modelled. */
  datatype Double = Double(bits: bv64)

  /** A glyph of the font, known by its glyph index. */
  datatype Glyph = Glyph(index: nat)

  datatype Font = Font(
    /** The SVG markup of the outline of a character drawn at an (x, y) origin and a font
        size, with a fill colour: `getPath(c, x, y, fontSize)`, its `fill` set, then `toSVG()`.
        The arguments are the character, x, y, the font size and the fill. */
    pathSvg: (char, int, int, int, string) -> string,
    /** `charToGlyph(c)` */
    charToGlyph: char -> Glyph,
    /** `getAdvanceWidth(c, fontSize)` */
    advanceWidth: (char, int) -> Double,
    /** `getKerningValue(left, right)` */
    kerningValue: (Glyph, Glyph) -> Double,
    /** `unitsPerEm` */
    unitsPerEm: Double)
}
