/** The font object model as the updater sees it: glyphs by name (with
    their component references), named groups and a kerning table.
    Outlines, anchors, layers other than the default one and lib data are
    opaque and not represented. */
module Fonts {

  /** A glyph: its name and, in order, the baseGlyph name of each of its
      components. */
  datatype Glyph = Glyph(name: string, components: seq<string>)

  /** A kerning pair: (left, right), each a glyph name or a group name. */
  type Pair = (string, string)

  /** The font the data is copied FROM; the updater never changes it, so it
      is a value. `order` is the order in which iterating over the font
      yields its glyphs. */
  datatype SourceFont = SourceFont(
    glyphs: map<string, Glyph>,
    order: seq<string>,
    groups: map<string, seq<string>>,
    kerning: map<Pair, int>)
  {
    /** What the font library guarantees: iteration yields every glyph
        exactly once, and every glyph is stored under its own name. */
    ghost predicate Valid()
    {
      && (forall n :: n in glyphs <==> n in order)
      && (forall i, j :: 0 <= i < j < |order| ==> order[i] != order[j])
      && (forall n :: n in glyphs ==> glyphs[n].name == n)
    }
  }

  /** The font the data is copied INTO; the updater changes it in place.
      `glyphs` is its default layer. */
  class Font {
    var glyphs: map<string, Glyph>
    var groups: map<string, seq<string>>
    var kerning: map<Pair, int>

    constructor (glyphs: map<string, Glyph>, groups: map<string, seq<string>>, kerning: map<Pair, int>)
      ensures this.glyphs == glyphs && this.groups == groups && this.kerning == kerning
    {
      this.glyphs := glyphs;
      this.groups := groups;
      this.kerning := kerning;
    }
  }
}
