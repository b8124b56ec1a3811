/** FontGlyph: one glyph of the font, a mutable object shared by the glyph table. */
module Glyphs {
  import opened Bytes
  import opened Errors

  /** The value held by a FontGlyph object at one moment. */
  datatype GlyphRec = GlyphRec(width: int, unicode: int, leftSideBearing: uint16, offsetFile: int, lengthFile: int)

  class FontGlyph {
    var width: int
    var unicode: int
    var leftSideBearing: uint16
    /** File offset and length of the glyph's outline; only SetFilePosition writes them. */
    var offsetFile: int
    var lengthFile: int

    function Rec(): GlyphRec
      reads this
    {
      GlyphRec(width, unicode, leftSideBearing, offsetFile, lengthFile)
    }

    /** The (int, int) constructor: a glyph that knows its character code. */
    constructor WithUnicode(width: int, unicode: int)
      ensures Rec() == GlyphRec(width, unicode, 0, 0, 0)
    {
      this.width := width;
      this.unicode := unicode;
      leftSideBearing := 0;
      offsetFile, lengthFile := 0, 0;
    }

    /** The (int, ushort) constructor used by the hmtx reader. */
    constructor WithBearing(width: int, leftSideBearing: uint16)
      ensures Rec() == GlyphRec(width, 0, leftSideBearing, 0, 0)
    {
      this.width := width;
      this.leftSideBearing := leftSideBearing;
      unicode := 0;
      offsetFile, lengthFile := 0, 0;
    }

    method SetFilePosition(offset: int, length: int)
      modifies this`offsetFile, this`lengthFile
      ensures Rec() == old(Rec()).(offsetFile := offset, lengthFile := length)
    {
      offsetFile := offset;
      lengthFile := length;
    }

    /** The `unicode` property setter. */
    method SetUnicode(code: int)
      modifies this`unicode
      ensures Rec() == old(Rec()).(unicode := code)
    {
      unicode := code;
    }
  }

  /** The value of a glyph slot: None for a null reference. */
  function View(g: FontGlyph?): (v: Option<GlyphRec>)
    reads g
    ensures v.Some? <==> g != null
  {
    if g == null then None else Some(g.Rec())
  }

  /** The values of a whole glyph table. */
  ghost function Snapshot(gs: seq<FontGlyph?>): (r: seq<Option<GlyphRec>>)
    reads gs
    ensures |r| == |gs|
    ensures forall i :: 0 <= i < |gs| ==> r[i] == View(gs[i])
  {
    seq(|gs|, i reads gs requires 0 <= i < |gs| => View(gs[i]))
  }

  /** No glyph object occupies two slots, so writing one slot leaves the others alone. */
  ghost predicate Distinct(gs: seq<FontGlyph?>) {
    forall i, j :: 0 <= i < |gs| && 0 <= j < |gs| && i != j && gs[i] != null ==> gs[i] != gs[j]
  }
}
