/**
  The table directory and the head, hhea, hmtx and loca readers, as functions of the font buffer,
  and `Load`: the whole reading sequence of the TrueType font object, table by table.
  Positions are those of the cursor: each reader starts at its table's offset and reads the
  fields it needs in file order, skipping the others.
*/
module Tables {
  import opened Bytes
  import opened Errors
  import opened Glyphs
  import opened CharMap

  /** A table directory entry. The reader keeps all three fields as C# `int`s. */
  datatype Table = Table(checksum: int, offset: int, length: int)

  /** The sfnt versions accepted: TrueType outlines (1.0) and CFF ('OTTO'). */
  const SFNT_TRUETYPE: int := 0x0001_0000
  const SFNT_OPENTYPE: int := 0x4F54_544F
  /** head.magicNumber. */
  const HEAD_MAGIC: int := 0x5F0F_3CF5

  // ---------------------------------------------------------------------------------------------
  // Table directory.

  /** The 16-byte table record at r: the tag, then checksum, offset and length, each read as a
      C# `int`. */
  function RecordAt(buf: seq<uint8>, r: int): Result<(string, Table)> {
    if !Readable(buf, r, 4) || !Readable(buf, r + 4, 4) || !Readable(buf, r + 8, 4) || !Readable(buf, r + 12, 4) then Err(OutOfBounds)
    else Ok((AsciiAt(buf, r, 4), Table(I32At(buf, r + 4), I32At(buf, r + 8), I32At(buf, r + 12))))
  }

  /** Records 0 .. n-1 of the directory, each 16 bytes from p, each added to the dictionary; a
      tag already present fails. */
  function Records(buf: seq<uint8>, p: int, n: nat, t0: map<string, Table>): Result<map<string, Table>> {
    if n == 0 then Ok(t0)
    else
      var t :- Records(buf, p, n - 1, t0);
      var record :- RecordAt(buf, p + 16 * (n - 1));
      if record.0 in t then Err(DuplicateTable(record.0)) else Ok(t[record.0 := record.1])
  }

  /** The offset table at p (sfntVersion, numTables, searchRange, entrySelector, rangeShift)
      followed by the table records, added to the dictionary t0. */
  function Directory(buf: seq<uint8>, p: int, t0: map<string, Table>): Result<map<string, Table>> {
    if !Readable(buf, p, 4) then Err(OutOfBounds)
    else
      var version := I32At(buf, p);
      if version != SFNT_TRUETYPE && version != SFNT_OPENTYPE then Err(NotSupported(version))
      else if !Readable(buf, p + 4, 2) || !Readable(buf, p + 6, 2) || !Readable(buf, p + 10, 2) then Err(OutOfBounds)
      else
        var numTables, searchRange, rangeShift := U16At(buf, p + 4), U16At(buf, p + 6), U16At(buf, p + 10);
        if rangeShift != numTables * 16 - searchRange then Err(Malformed)
        else Records(buf, p + 12, numTables, t0)
  }

  /** A successful directory read holds every record's tag, with the record's three fields. */
  lemma {:induction false} RecordsHold(buf: seq<uint8>, p: int, n: nat, t0: map<string, Table>, k: nat)
    requires Records(buf, p, n, t0).Ok? && k < n
    ensures var r := p + 16 * k;
      && Readable(buf, r, 16)
      && var t := Records(buf, p, n, t0).value;
         AsciiAt(buf, r, 4) in t && AsciiAt(buf, r, 4) !in t0
         && t[AsciiAt(buf, r, 4)] == Table(I32At(buf, r + 4), I32At(buf, r + 8), I32At(buf, r + 12))
    decreases n
  {
    var t := Records(buf, p, n - 1, t0).value;
    RecordsGrow(buf, p, n - 1, t0);
    if k < n - 1 {
      RecordsHold(buf, p, n - 1, t0, k);
    }
  }

  lemma {:induction false} RecordsGrow(buf: seq<uint8>, p: int, n: nat, t0: map<string, Table>)
    requires Records(buf, p, n, t0).Ok?
    ensures forall tag :: tag in t0 ==> tag in Records(buf, p, n, t0).value && Records(buf, p, n, t0).value[tag] == t0[tag]
    decreases n
  {
    if n > 0 {
      RecordsGrow(buf, p, n - 1, t0);
    }
  }

  /** Two records with the same tag make the directory fail. */
  lemma DuplicateTagFails(buf: seq<uint8>, p: int, n: nat, t0: map<string, Table>, i: nat, j: nat)
    requires i < j < n && Readable(buf, p + 16 * i, 16) && Readable(buf, p + 16 * j, 16)
    requires AsciiAt(buf, p + 16 * i, 4) == AsciiAt(buf, p + 16 * j, 4)
    ensures Records(buf, p, n, t0).Err?
  {
    if Records(buf, p, n, t0).Ok? {
      RecordsPrefix(buf, p, n, j + 1, t0);
      RecordsPrefix(buf, p, n, j, t0);
      RecordsHold(buf, p, j, t0, i);
      assert false;
    }
  }

  /** A directory that reads to the end read each of its prefixes. */
  lemma {:induction false} RecordsPrefix(buf: seq<uint8>, p: int, n: nat, k: nat, t0: map<string, Table>)
    requires k <= n && Records(buf, p, n, t0).Ok?
    ensures Records(buf, p, k, t0).Ok?
    decreases n
  {
    if k < n {
      RecordsPrefix(buf, p, n - 1, k, t0);
    }
  }

  /** Once a record fails, the directory fails the same way. */
  lemma {:induction false} RecordsStops(buf: seq<uint8>, p: int, k: nat, n: nat, t0: map<string, Table>)
    requires k <= n && Records(buf, p, k, t0).Err?
    ensures Records(buf, p, n, t0) == Records(buf, p, k, t0)
    decreases n
  {
    if k < n {
      RecordsStops(buf, p, k, n - 1, t0);
    }
  }

  // ---------------------------------------------------------------------------------------------
  // head and hhea.

  /** The version check head and hhea share: majorVersion 1, minorVersion 0; another version
      fails with major * 65536 + minor. */
  function CheckVersion(buf: seq<uint8>, off: int): Outcome {
    if !Readable(buf, off, 2) || !Readable(buf, off + 2, 2) then Fail(OutOfBounds)
    else
      var major, minor := U16At(buf, off), U16At(buf, off + 2);
      if major != 1 || minor != 0 then Fail(NotSupported(major * 0x1_0000 + minor)) else Pass
  }

  /** The checks at the start of head: version 1.0, then the magic number at +12. */
  function CheckHeadStart(buf: seq<uint8>, off: int): Outcome {
    if CheckVersion(buf, off).Fail? then CheckVersion(buf, off)
    else if !Readable(buf, off + 12, 4) then Fail(OutOfBounds)
    else if I32At(buf, off + 12) != HEAD_MAGIC then Fail(NotSupported(I32At(buf, off + 12)))
    else Pass
  }

  /** What the reader keeps of head: unitsPerEm, the bounding box (xMin, yMin, xMax, yMax) and
      indexToLocFormat. */
  datatype Head = Head(unitsPerEm: int, bbox: seq<int>, indexToLocFormat: int)

  /** head at `off`: version 1.0, fontRevision and checkSumAdjustment skipped, magicNumber, flags
      skipped, unitsPerEm at +18, created/modified skipped, the box at +36, macStyle,
      lowestRecPPEM and fontDirectionHint skipped, indexToLocFormat at +50. */
  function ParseHead(buf: seq<uint8>, off: int): (r: Result<Head>)
    ensures r.Ok? ==> 0 <= r.value.unitsPerEm < 0x1_0000 && |r.value.bbox| == 4
  {
    if CheckHeadStart(buf, off).Fail? then Err(CheckHeadStart(buf, off).error)
    else if !Readable(buf, off + 18, 2) || !Readable(buf, off + 36, 8) || !Readable(buf, off + 50, 2) then Err(OutOfBounds)
    else Ok(Head(U16At(buf, off + 18),
                 [I16At(buf, off + 36), I16At(buf, off + 38), I16At(buf, off + 40), I16At(buf, off + 42)],
                 I16At(buf, off + 50)))
  }

  /** What the reader keeps of hhea. */
  datatype Hhea = Hhea(ascender: int, descender: int, numberOfHMetrics: int)

  /** hhea at `off`: version 1.0, ascender at +4, descender at +6, thirteen fields skipped,
      numberOfHMetrics at +34. */
  function ParseHhea(buf: seq<uint8>, off: int): (r: Result<Hhea>)
    ensures r.Ok? ==> 0 <= r.value.numberOfHMetrics < 0x1_0000
  {
    if CheckVersion(buf, off).Fail? then Err(CheckVersion(buf, off).error)
    else if !Readable(buf, off + 4, 2) || !Readable(buf, off + 6, 2) || !Readable(buf, off + 34, 2) then Err(OutOfBounds)
    else Ok(Hhea(I16At(buf, off + 4), I16At(buf, off + 6), U16At(buf, off + 34)))
  }

  /** head is accepted only at version 1.0 with the right magic number. */
  lemma HeadChecks(buf: seq<uint8>, off: int)
    requires ParseHead(buf, off).Ok?
    ensures Readable(buf, off, 52)
    ensures U16At(buf, off) == 1 && U16At(buf, off + 2) == 0 && I32At(buf, off + 12) == HEAD_MAGIC
  {
  }

  /** The two's-complement 16-bit pattern of a signed value. */
  function Pattern16(v: int): (u: int)
    requires -0x8000 <= v < 0x8000
    ensures 0 <= u < 0x1_0000 && ToInt16(u) == v
  {
    if v < 0 then v + 0x1_0000 else v
  }

  function Zeros(n: nat): (bs: seq<uint8>)
    ensures |bs| == n && forall i :: 0 <= i < n ==> bs[i] == 0
  {
    seq(n, _ => 0)
  }

  /** A head table holding `h`, with every field the reader skips set to zero. */
  function EncodeHead(h: Head): (bs: seq<uint8>)
    requires 0 <= h.unitsPerEm < 0x1_0000 && |h.bbox| == 4
    requires forall i :: 0 <= i < 4 ==> -0x8000 <= h.bbox[i] < 0x8000
    requires -0x8000 <= h.indexToLocFormat < 0x8000
    ensures |bs| == 52
  {
    Encode16(1) + Encode16(0) + Zeros(8) + Encode32(HEAD_MAGIC) + Zeros(2) + Encode16(h.unitsPerEm) + Zeros(16)
      + Encode16(Pattern16(h.bbox[0])) + Encode16(Pattern16(h.bbox[1]))
      + Encode16(Pattern16(h.bbox[2])) + Encode16(Pattern16(h.bbox[3]))
      + Zeros(6) + Encode16(Pattern16(h.indexToLocFormat))
  }

  /** The bytes two apart at `pos` are the encoding of `v`. */
  lemma U16Placed(bs: seq<uint8>, pos: nat, v: int)
    requires 0 <= v < 0x1_0000 && pos + 2 <= |bs|
    requires bs[pos] == Encode16(v)[0] && bs[pos + 1] == Encode16(v)[1]
    ensures U16At(bs, pos) == v
  {
    U16RoundTrip(v);
  }

  /** head reads back every unitsPerEm, bounding box and indexToLocFormat at the offsets the
      reader uses. */
  lemma HeadRoundTrip(h: Head)
    requires 0 <= h.unitsPerEm < 0x1_0000 && |h.bbox| == 4
    requires forall i :: 0 <= i < 4 ==> -0x8000 <= h.bbox[i] < 0x8000
    requires -0x8000 <= h.indexToLocFormat < 0x8000
    ensures ParseHead(EncodeHead(h), 0) == Ok(h)
  {
    var bs := EncodeHead(h);
    U16Placed(bs, 0, 1);
    U16Placed(bs, 2, 0);
    var e := Encode32(HEAD_MAGIC);
    assert bs[12] == e[0] && bs[13] == e[1] && bs[14] == e[2] && bs[15] == e[3];
    assert U32At(bs, 12) == U32At(e, 0);
    I32RoundTrip(HEAD_MAGIC);
    U16Placed(bs, 18, h.unitsPerEm);
    U16Placed(bs, 36, Pattern16(h.bbox[0]));
    U16Placed(bs, 38, Pattern16(h.bbox[1]));
    U16Placed(bs, 40, Pattern16(h.bbox[2]));
    U16Placed(bs, 42, Pattern16(h.bbox[3]));
    U16Placed(bs, 50, Pattern16(h.indexToLocFormat));
    assert ParseHead(bs, 0).value.bbox == h.bbox;
  }

  /** An hhea table holding `h`, with every field the reader skips set to zero. */
  function EncodeHhea(h: Hhea): (bs: seq<uint8>)
    requires -0x8000 <= h.ascender < 0x8000 && -0x8000 <= h.descender < 0x8000
    requires 0 <= h.numberOfHMetrics < 0x1_0000
    ensures |bs| == 36
  {
    Encode16(1) + Encode16(0) + Encode16(Pattern16(h.ascender)) + Encode16(Pattern16(h.descender))
      + Zeros(26) + Encode16(h.numberOfHMetrics)
  }

  /** hhea reads back every ascender, descender and numberOfHMetrics at the offsets the reader
      uses. */
  lemma HheaRoundTrip(h: Hhea)
    requires -0x8000 <= h.ascender < 0x8000 && -0x8000 <= h.descender < 0x8000
    requires 0 <= h.numberOfHMetrics < 0x1_0000
    ensures ParseHhea(EncodeHhea(h), 0) == Ok(h)
  {
    var bs := EncodeHhea(h);
    U16Placed(bs, 0, 1);
    U16Placed(bs, 2, 0);
    U16Placed(bs, 4, Pattern16(h.ascender));
    U16Placed(bs, 6, Pattern16(h.descender));
    U16Placed(bs, 34, h.numberOfHMetrics);
  }

  // ---------------------------------------------------------------------------------------------
  // hmtx.

  /** An advance width in font units scaled to a 1000-unit em: multiplied first, then divided
      with the remainder dropped. */
  function Scale(advance: nat, unitsPerEm: nat): nat
    requires unitsPerEm > 0
  {
    advance * 1000 / unitsPerEm
  }

  /** Metric i, at off + 4 * i: the advance width, scaled to a 1000-unit em by integer division
      after the multiplication, and the left side bearing as read. */
  function HmtxEntry(buf: seq<uint8>, off: int, i: nat, unitsPerEm: nat): Result<GlyphRec> {
    var r := off + 4 * i;
    if !Readable(buf, r, 2) then Err(OutOfBounds)
    else if unitsPerEm == 0 then Err(DivideByZero)
    else if !Readable(buf, r + 2, 2) then Err(OutOfBounds)
    else Ok(GlyphRec(Scale(U16At(buf, r), unitsPerEm), 0, U16At(buf, r + 2) as uint16, 0, 0))
  }

  /** Metrics 0 .. n-1, in order. */
  function Hmtx(buf: seq<uint8>, off: int, n: nat, unitsPerEm: nat): Result<seq<GlyphRec>> {
    if n == 0 then Ok([])
    else
      var gs :- Hmtx(buf, off, n - 1, unitsPerEm);
      var g :- HmtxEntry(buf, off, n - 1, unitsPerEm);
      Ok(gs + [g])
  }

  /** Once a metric fails, the whole read fails the same way. */
  lemma {:induction false} HmtxStops(buf: seq<uint8>, off: int, k: nat, n: nat, unitsPerEm: nat)
    requires k <= n && Hmtx(buf, off, k, unitsPerEm).Err?
    ensures Hmtx(buf, off, n, unitsPerEm) == Hmtx(buf, off, k, unitsPerEm)
    decreases n
  {
    if k < n {
      HmtxStops(buf, off, k, n - 1, unitsPerEm);
    }
  }

  /** After hmtx the glyph table has exactly numberOfHMetrics glyphs, glyph i has width
      advanceWidth_i * 1000 / unitsPerEm and the raw leftSideBearing_i, and no code or file position. */
  lemma {:induction false} HmtxGlyphs(buf: seq<uint8>, off: int, n: nat, unitsPerEm: nat)
    requires Hmtx(buf, off, n, unitsPerEm).Ok?
    ensures var gs := Hmtx(buf, off, n, unitsPerEm).value;
      && |gs| == n
      && (n > 0 ==> unitsPerEm > 0 && Readable(buf, off, 4 * n))
      && forall i :: 0 <= i < n ==>
           gs[i] == GlyphRec(Scale(U16At(buf, off + 4 * i), unitsPerEm), 0, U16At(buf, off + 4 * i + 2) as uint16, 0, 0)
    decreases n
  {
    if n > 0 {
      HmtxGlyphs(buf, off, n - 1, unitsPerEm);
    }
  }

  /** A zero unitsPerEm fails the read as soon as there is a metric to scale. */
  lemma {:induction false} HmtxZeroEm(buf: seq<uint8>, off: int, n: nat)
    requires n > 0 && Readable(buf, off, 4 * n)
    ensures Hmtx(buf, off, n, 0) == Err(DivideByZero)
    decreases n
  {
    if n > 1 {
      HmtxZeroEm(buf, off, n - 1);
    }
  }

  // ---------------------------------------------------------------------------------------------
  // loca and glyf.

  /** n entries of 16 bits from off, each doubled: the short loca format. */
  function ShortOffsets(buf: seq<uint8>, off: int, n: nat): (r: seq<int>)
    requires ReadableRun(buf, off, 2, n)
    ensures |r| == n && forall i :: 0 <= i < n ==> r[i] == U16At(buf, off + 2 * i) * 2
  {
    seq(n, i requires 0 <= i < n => U16At(buf, off + 2 * i) * 2)
  }

  /** Short loca entry i reads back as twice the 16-bit value written for it. */
  lemma ShortOffsetAt(halves: seq<int>, i: nat)
    requires forall k :: 0 <= k < |halves| ==> 0 <= halves[k] < 0x1_0000
    requires i < |halves|
    ensures ReadableRun(Encode16s(halves), 0, 2, |halves|)
    ensures ShortOffsets(Encode16s(halves), 0, |halves|)[i] == 2 * halves[i]
  {
    var bs := Encode16s(halves);
    assert bs[2 * i] == Encode16(halves[i])[0] && bs[2 * i + 1] == Encode16(halves[i])[1];
    U16RoundTrip(halves[i]);
    assert U16At(bs, 2 * i) == U16At(Encode16(halves[i]), 0);
  }

  /** Short loca entries are offsets of at most 131070 bytes, each twice the 16-bit value
      written for it. */
  lemma ShortOffsetsRoundTrip(halves: seq<int>)
    requires forall i :: 0 <= i < |halves| ==> 0 <= halves[i] < 0x1_0000
    ensures ReadableRun(Encode16s(halves), 0, 2, |halves|)
    ensures forall i :: 0 <= i < |halves| ==>
      var r := ShortOffsets(Encode16s(halves), 0, |halves|)[i];
      r == 2 * halves[i] && 0 <= r <= 0x1_FFFE
  {
    forall i | 0 <= i < |halves|
      ensures var r := ShortOffsets(Encode16s(halves), 0, |halves|)[i]; r == 2 * halves[i] && 0 <= r <= 0x1_FFFE
    {
      ShortOffsetAt(halves, i);
    }
  }

  /** n entries of 32 bits from off, read as C# `int`s: the long loca format. */
  function LongOffsets(buf: seq<uint8>, off: int, n: nat): (r: seq<int>)
    requires ReadableRun(buf, off, 4, n)
    ensures |r| == n && forall i :: 0 <= i < n ==> r[i] == I32At(buf, off + 4 * i)
  {
    seq(n, i requires 0 <= i < n => I32At(buf, off + 4 * i))
  }

  /** Long loca entries read back every signed 32-bit offset written for them. */
  lemma LongOffsetsRoundTrip(offsets: seq<int>)
    requires forall i :: 0 <= i < |offsets| ==> IsInt32(offsets[i])
    ensures LongOffsets(Encode32s(offsets), 0, |offsets|) == offsets
  {
    forall k | 0 <= k < |offsets| ensures I32At(Encode32s(offsets), 4 * k) == offsets[k] {
      I32sRoundTrip(offsets, k);
    }
  }

  /** The loca entries: numEntries = length / 2 (C# truncation) short entries when
      indexToLocFormat is 0; otherwise length / 4 long entries. */
  function LocaOffsets(buf: seq<uint8>, loca: Table, indexToLocFormat: int): (r: Result<seq<int>>)
  {
    if indexToLocFormat == 0 then
      var n := TruncDiv(loca.length, 2);
      if n < 0 then Err(NegativeArraySize)
      else if !ReadableRun(buf, loca.offset, 2, n) then Err(OutOfBounds)
      else Ok(ShortOffsets(buf, loca.offset, n))
    else
      var n := TruncDiv(loca.length, 4);
      if n < 0 then Err(NegativeArraySize)
      else if !ReadableRun(buf, loca.offset, 4, n) then Err(OutOfBounds)
      else Ok(LongOffsets(buf, loca.offset, n))
  }

  /** `Array.Resize` to n when the table is shorter: the new slots are empty (null). */
  function Grown(gl: seq<Option<GlyphRec>>, n: int): (r: seq<Option<GlyphRec>>)
    ensures |r| == if |gl| < n then n else |gl|
    ensures r[..|gl|] == gl
    ensures forall i :: |gl| <= i < |r| ==> r[i].None?
  {
    if |gl| < n then gl + seq(n - |gl|, _ => None) else gl
  }

  /** Glyph i's position: glyf's offset plus loca[i], and loca[i + 1] - loca[i] bytes, both
      computed with C# `int` wrap-around. */
  function Located(g: GlyphRec, glyfOffset: int, offs: seq<int>, i: int): GlyphRec
    requires 0 <= i < |offs| - 1
  {
    g.(offsetFile := ToInt32(glyfOffset + offs[i]), lengthFile := ToInt32(offs[i + 1] - offs[i]))
  }

  /** Sets the file position of glyphs 0 .. |offs|-2 of a table with at least |offs| - 1 slots;
      an empty slot among them fails with a null reference. */
  function Positioned(g: seq<Option<GlyphRec>>, offs: seq<int>, glyfOffset: int): Result<seq<Option<GlyphRec>>>
    requires |offs| - 1 <= |g|
  {
    if exists i :: 0 <= i < |offs| - 1 && g[i].None? then Err(NullReference)
    else Ok(seq(|g|, i requires 0 <= i < |g| => if i < |offs| - 1 then Some(Located(g[i].value, glyfOffset, offs, i)) else g[i]))
  }

  /** Grows the table to |offs| slots, then sets the positions. */
  function Locate(gl: seq<Option<GlyphRec>>, offs: seq<int>, glyfOffset: int): Result<seq<Option<GlyphRec>>> {
    Positioned(Grown(gl, |offs|), offs, glyfOffset)
  }

  /** `ProcessGLYPH`: the loca entries, then the positions they give. */
  function GlyphPositions(buf: seq<uint8>, glyf: Table, loca: Table, indexToLocFormat: int, gl: seq<Option<GlyphRec>>)
    : Result<seq<Option<GlyphRec>>>
  {
    var offs :- LocaOffsets(buf, loca, indexToLocFormat);
    Locate(gl, offs, glyf.offset)
  }

  /** loca grows the glyph table to the number of entries when it is shorter and never shrinks it;
      glyph i < n - 1 gets offset glyf.offset + loca[i] and length loca[i + 1] - loca[i], keeping
      its width, code and side bearing; the other glyphs are unchanged. */
  lemma LocateResult(gl: seq<Option<GlyphRec>>, offs: seq<int>, glyfOffset: int, r: seq<Option<GlyphRec>>)
    requires Locate(gl, offs, glyfOffset) == Ok(r)
    ensures |r| == (if |gl| < |offs| then |offs| else |gl|)
    ensures |offs| - 1 <= |gl|
    ensures forall i :: 0 <= i < |offs| - 1 ==> gl[i].Some? && r[i] == Some(Located(gl[i].value, glyfOffset, offs, i))
    ensures forall i :: 0 <= i < |gl| && |offs| - 1 <= i ==> r[i] == gl[i]
    ensures forall i :: 0 <= i < |gl| ==> (r[i].Some? <==> gl[i].Some?)
    ensures forall i :: 0 <= i < |gl| && gl[i].Some? ==>
      r[i].value.width == gl[i].value.width && r[i].value.unicode == gl[i].value.unicode
      && r[i].value.leftSideBearing == gl[i].value.leftSideBearing
  {
    var g := Grown(gl, |offs|);
    forall i | 0 <= i < |gl| ensures g[i] == gl[i] {
      assert g[i] == g[..|gl|][i];
    }
    assert |gl| < |g| ==> g[|gl|].None?;
    forall i | 0 <= i < |offs| - 1
      ensures gl[i].Some? && r[i] == Some(Located(gl[i].value, glyfOffset, offs, i))
    {
      assert g[i] == gl[i];
    }
    forall i | 0 <= i < |gl|
      ensures (r[i].Some? <==> gl[i].Some?)
      ensures gl[i].Some? ==> r[i].value.width == gl[i].value.width && r[i].value.unicode == gl[i].value.unicode
                              && r[i].value.leftSideBearing == gl[i].value.leftSideBearing
    {
      assert g[i] == gl[i];
    }
  }

  /** loca fails on an empty slot: when loca has two or more entries more than the glyph table
      has glyphs, the first added slot is reached. */
  lemma LocateNeedsGlyphs(gl: seq<Option<GlyphRec>>, offs: seq<int>, glyfOffset: int)
    requires |offs| >= |gl| + 2
    ensures Locate(gl, offs, glyfOffset) == Err(NullReference)
  {
    var g := Grown(gl, |offs|);
    assert g[|gl|].None?;
  }

  // ---------------------------------------------------------------------------------------------
  // The whole font.

  /** The state the reader fills. */
  datatype Font = Font(tables: map<string, Table>, head: Head, hhea: Hhea, codes: map<int, int>, glyphs: seq<Option<GlyphRec>>)

  /** `dctTables[tag]`. */
  function Lookup(t: map<string, Table>, tag: string): (r: Result<Table>)
    ensures r.Ok? <==> tag in t
    ensures r.Ok? ==> r.value == t[tag]
    ensures r.Err? ==> r.error == MissingTable(tag)
  {
    if tag in t then Ok(t[tag]) else Err(MissingTable(tag))
  }

  /** Every glyph of a freshly read hmtx is present. */
  function Present(gs: seq<GlyphRec>): (r: seq<Option<GlyphRec>>)
    ensures |r| == |gs| && forall i :: 0 <= i < |gs| ==> r[i] == Some(gs[i])
  {
    seq(|gs|, i requires 0 <= i < |gs| => Some(gs[i]))
  }

  /** The reading sequence: the directory from cursor position p, then head, hhea, hmtx, cmap,
      and glyf/loca; t0 and c0 are the dictionaries the reading adds to. */
  function Load(buf: seq<uint8>, p: int, t0: map<string, Table>, c0: map<int, int>): Result<Font> {
    var tables :- Directory(buf, p, t0);
    LoadTables(buf, tables, c0)
  }

  /** The reading sequence after the directory. */
  function LoadTables(buf: seq<uint8>, tables: map<string, Table>, c0: map<int, int>): Result<Font> {
    var mt :- LoadMetrics(buf, tables);
    var cm :- LoadOutlines(buf, tables, mt.head.indexToLocFormat, CodeMap(c0, Present(mt.metrics)));
    Ok(Font(tables, mt.head, mt.hhea, cm.codes, cm.glyphs))
  }

  /** What head, hhea and hmtx give: the header, the horizontal header and the glyph metrics. */
  datatype Metrics = Metrics(head: Head, hhea: Hhea, metrics: seq<GlyphRec>)

  /** The first stage of `Load` after the directory: head, hhea, then hmtx, which is read with
      numberOfHMetrics from hhea and unitsPerEm from head. */
  function LoadMetrics(buf: seq<uint8>, tables: map<string, Table>): Result<Metrics> {
    var headT :- Lookup(tables, "head");
    var head :- ParseHead(buf, headT.offset);
    var hheaT :- Lookup(tables, "hhea");
    var hhea :- ParseHhea(buf, hheaT.offset);
    var hmtxT :- Lookup(tables, "hmtx");
    var metrics :- Hmtx(buf, hmtxT.offset, hhea.numberOfHMetrics, head.unitsPerEm);
    Ok(Metrics(head, hhea, metrics))
  }

  /** The last stage of `Load`: cmap on the code map m, then glyf and loca with indexToLocFormat. */
  function LoadOutlines(buf: seq<uint8>, tables: map<string, Table>, indexToLocFormat: int, m: CodeMap): Result<CodeMap> {
    var cmapT :- Lookup(tables, "cmap");
    var cm :- Cmap(buf, cmapT.offset, m);
    var glyfT :- Lookup(tables, "glyf");
    var locaT :- Lookup(tables, "loca");
    var glyphs :- GlyphPositions(buf, glyfT, locaT, indexToLocFormat, cm.glyphs);
    Ok(CodeMap(cm.codes, glyphs))
  }

  /** Loading fails on an unsupported sfnt version, and on a directory whose rangeShift is not
      numTables * 16 - searchRange. */
  lemma LoadRejectsDirectory(buf: seq<uint8>, p: int, t0: map<string, Table>, c0: map<int, int>)
    requires Readable(buf, p, 12)
    ensures var version := I32At(buf, p);
      version != SFNT_TRUETYPE && version != SFNT_OPENTYPE ==> Load(buf, p, t0, c0) == Err(NotSupported(version))
    ensures var version := I32At(buf, p);
      ((version == SFNT_TRUETYPE || version == SFNT_OPENTYPE) &&
       U16At(buf, p + 10) != U16At(buf, p + 4) * 16 - U16At(buf, p + 6)) ==> Load(buf, p, t0, c0) == Err(Malformed)
  {
  }

  /** After the directory, loading fails when head is not version 1.0 or lacks the magic number,
      and when hhea is not version 1.0; each check applies once the directory lists the table. */
  lemma LoadRejectsHeaders(buf: seq<uint8>, t: map<string, Table>, c0: map<int, int>)
    ensures ("head" in t && Readable(buf, t["head"].offset, 4) &&
             (U16At(buf, t["head"].offset) != 1 || U16At(buf, t["head"].offset + 2) != 0)) ==>
      LoadTables(buf, t, c0) == Err(NotSupported(U16At(buf, t["head"].offset) * 0x1_0000 + U16At(buf, t["head"].offset + 2)))
    ensures ("head" in t && Readable(buf, t["head"].offset, 16) &&
             U16At(buf, t["head"].offset) == 1 && U16At(buf, t["head"].offset + 2) == 0 &&
             I32At(buf, t["head"].offset + 12) != HEAD_MAGIC) ==>
      LoadTables(buf, t, c0) == Err(NotSupported(I32At(buf, t["head"].offset + 12)))
    ensures ("head" in t && ParseHead(buf, t["head"].offset).Ok? &&
             "hhea" in t && Readable(buf, t["hhea"].offset, 4) &&
             (U16At(buf, t["hhea"].offset) != 1 || U16At(buf, t["hhea"].offset + 2) != 0)) ==>
      LoadTables(buf, t, c0) == Err(NotSupported(U16At(buf, t["hhea"].offset) * 0x1_0000 + U16At(buf, t["hhea"].offset + 2)))
  {
  }

  /** cmap and glyf/loca keep every glyph's width and side bearing and never drop a glyph or
      shrink the table; the code map they leave names present glyphs only. */
  lemma OutlinesKeep(buf: seq<uint8>, tables: map<string, Table>, indexToLocFormat: int, m: CodeMap, r: CodeMap)
    requires TargetsValid(m) && LoadOutlines(buf, tables, indexToLocFormat, m) == Ok(r)
    ensures |m.glyphs| <= |r.glyphs|
    ensures forall i :: 0 <= i < |m.glyphs| && m.glyphs[i].Some? ==>
      && r.glyphs[i].Some?
      && r.glyphs[i].value.width == m.glyphs[i].value.width
      && r.glyphs[i].value.leftSideBearing == m.glyphs[i].value.leftSideBearing
    ensures TargetsValid(r)
  {
    var cm := Cmap(buf, tables["cmap"].offset, m).value;
    CmapKeepsGlyphTable(buf, tables["cmap"].offset, m);
    var offs := LocaOffsets(buf, tables["loca"], indexToLocFormat).value;
    assert Locate(cm.glyphs, offs, tables["glyf"].offset) == Ok(r.glyphs);
    LocateResult(cm.glyphs, offs, tables["glyf"].offset, r.glyphs);
    forall c | c in r.codes ensures ValidTarget(r.glyphs, r.codes[c]) {
      assert ValidTarget(cm.glyphs, cm.codes[c]);
    }
  }

  /** After a successful load, glyph i < numberOfHMetrics is present, with width
      advanceWidth_i * 1000 / unitsPerEm and the raw leftSideBearing_i of hmtx: neither cmap nor
      loca changes them. The table holds at least numberOfHMetrics glyphs, and every entry of
      the code map names a present glyph. */
  lemma LoadedGlyphs(buf: seq<uint8>, tables: map<string, Table>, f: Font)
    requires LoadTables(buf, tables, map[]) == Ok(f)
    ensures "hmtx" in f.tables
    ensures HmtxKept(buf, f.tables["hmtx"].offset, f.hhea.numberOfHMetrics, f.head.unitsPerEm, f.glyphs)
    ensures TargetsValid(CodeMap(f.codes, f.glyphs))
  {
    var mt := LoadMetrics(buf, tables).value;
    assert f.tables == tables && f.head == mt.head && f.hhea == mt.hhea;
    var m0 := CodeMap(map[], Present(mt.metrics));
    OutlinesKeep(buf, tables, mt.head.indexToLocFormat, m0, CodeMap(f.codes, f.glyphs));
    KeptMetrics(buf, f.tables["hmtx"].offset, f.hhea.numberOfHMetrics, f.head.unitsPerEm, mt.metrics, f.glyphs);
  }

  /** Slot i < n of the glyph table r holds a glyph with the scaled advance width and the side
      bearing of metric i of the hmtx table at off. */
  ghost predicate HmtxKept(buf: seq<uint8>, off: int, n: nat, upem: nat, r: seq<Option<GlyphRec>>) {
    && n <= |r|
    && (n > 0 ==> upem > 0 && Readable(buf, off, 4 * n))
    && forall i :: 0 <= i < n ==>
         && r[i].Some?
         && r[i].value.width == Scale(U16At(buf, off + 4 * i), upem)
         && r[i].value.leftSideBearing == U16At(buf, off + 4 * i + 2) as uint16
  }

  /** Glyphs that keep the widths and side bearings of a successful hmtx read hold, at slot
      i < n, the scaled advance width and the side bearing of metric i. */
  lemma KeptMetrics(buf: seq<uint8>, off: int, n: nat, upem: nat, metrics: seq<GlyphRec>, r: seq<Option<GlyphRec>>)
    requires Hmtx(buf, off, n, upem) == Ok(metrics)
    requires |metrics| <= |r|
    requires forall i :: 0 <= i < |metrics| ==>
      && r[i].Some?
      && r[i].value.width == metrics[i].width
      && r[i].value.leftSideBearing == metrics[i].leftSideBearing
    ensures HmtxKept(buf, off, n, upem, r)
  {
    HmtxGlyphs(buf, off, n, upem);
  }
}
