# SharpReport TrueType font reader, in Dafny

This project models the TrueType/OpenType font object of SharpReport's PDF writer: the reader
that fills the font from the bytes of a `.ttf`/`.otf` file, and the state the PDF writer keeps
about the characters written with the font.

- **The byte cursor.** `filePosition` moves over the font buffer. Each read takes its big-endian
  bytes at the cursor and advances it. `GetUInt32` returns a C# `int`, so patterns of 2^31 and
  more come out negative.
- **The table directory.** The reader checks the sfnt version and cross-checks `rangeShift`. It
  then adds one record per table to `dctTables`; a tag already present fails.
- **head, hhea and hmtx.** Each checks its version, and head also its magic number. hmtx builds
  the glyph table `Glypth` with widths scaled to a 1000-unit em.
- **cmap.** The reader picks the (3, 10) subtable if there is one, else the (1, 0) subtable. It
  decodes formats 0, 4, 6 and 12 into `dctCharCodeToGlyphID`, marking each target glyph with its
  code.
- **loca/glyf.** loca grows the glyph table to the number of loca entries and sets each glyph's
  file position.
- **The used characters.** `FirstChar`, `LastChar` and `hashChar` record what was written.
- **The width of a text.** The integer part of the kerned width.
- **The font dictionary.** `Write` produces the dictionary with its `/Widths` array, in the form
  of a PDF simple TrueType font (ISO 32000-1, sections 9.6.2 and 9.6.3).

## How the model is built

The object is the class `TrueType.TtfFont`. It holds the fields of `XrefFontTtfBase` and of its
base class `XrefFont`; Dafny has no class inheritance, so they are merged into one class.
`FontGlyph` is its own class, `Glyphs.FontGlyph`.

- **The glyph table.** It is a `seq<FontGlyph?>` field: the reader reassigns it on
  `new FontGlyph[n]` and on `Array.Resize`.
- **The glyph objects.** They are updated in place: cmap sets `unicode`, and loca calls
  `SetFilePosition`.
- **Reader methods and their functions.** Every reader method is proved equal to a function of
  the buffer and the old state: `Directory`, `ParseHead`, `ParseHhea`, `Hmtx`, `Cmap`,
  `GlyphPositions`, and the composition `Load`. The lemmas about what the reading does are
  proved about those functions.
- **Exceptions.** Each exception of the C# code is a `FontError`. A method returns an `Outcome`,
  and the function it is proved against returns a `Result` that fails with the same error, at
  the same point.

The cmap decoders are loops (nested, for formats 4 and 12). Each is described by the sequence
of its iterations, its *steps*.

- **A step.** A step either adds one code-to-glyph entry and marks the glyph, or fails there.
  A step fails on a read past the end of the buffer or on a bad `glyphIdArray` index.
- **Running the steps.** `CharMap.Run` performs the steps on the dictionary and the glyph table,
  stopping at the first failure.
- **What a run does.** Lemmas about `Run` state this for every decoder: which codes are added,
  to which glyphs, when the run succeeds, and which `unicode` each glyph ends up with.

### Where the code is followed rather than the OpenType standard

- **Format 4, `idDelta`.** `idDelta + c` is not reduced modulo 65536, and `idDelta` is not added
  to a glyph found through `idRangeOffset`.
- **Format 4, `glyphIdArray` length.** The length is `((length >> 1) - 8 - segCount) << 2`, by C#
  operator precedence (`CharMap.GlyphIdCount`). A negative length fails as the array
  allocation does.
- **cmap and the glyph table.** cmap never grows the glyph table. A glyph id outside it fails
  (`OutOfBounds`), and an empty slot fails (`NullReference`).
- **Format 12 ending at `int.MaxValue`.** In a group whose `endCharCode` is `int.MaxValue`, the
  C# counter wraps around and the loop never exits normally. It runs until the glyph index
  leaves the table, so such a group always fails. `CharMap.GroupIterations` counts those turns.
- **Positions.** Sums of two file values wrap as C# `int` additions do: the cmap subtable
  position `table.offset + offset`, the glyph offset `glyf.offset + loca[i]` and the glyph
  length `loca[i + 1] - loca[i]`.
- **`Write` and an unmapped FirstChar.** The first width is always looked up in the code map,
  so an unmapped FirstChar fails (`KeyNotFound`). The other codes fall back to `Width`.
- **Empty slots added by loca.** When loca has more entries than there are glyphs, the slots it
  adds are null. Setting the position of one of them fails (`NullReference`), except for the
  last entry, which only bounds the previous glyph.

## Model

| member | source | states |
|---|---|---|
| Bytes.ToInt32 | SharpReport/PDF/XrefFontTtfBase.cs:403-407 | the result is a 32-bit C# `int` congruent to the argument modulo 2^32, and equals it when it is already in range |
| Bytes.ToInt32Succ | SharpReport/PDF/XrefFontTtfBase.cs:344-348 | incrementing a wrapped `int` counter wraps like incrementing the unwrapped value, so after z increments from start the counter holds ToInt32(start + z) |
| Bytes.ToInt16 | SharpReport/PDF/XrefFontTtfBase.cs:385-389 | the `(short)` cast gives a value in -32768..32767 congruent to the pattern modulo 2^16 |
| Bytes.TruncDiv | SharpReport/PDF/XrefFontTtfBase.cs:92-100 | C# division truncates toward zero: the remainder has the sign of the dividend and is smaller than the divisor |
| Bytes.U8At | SharpReport/PDF/XrefFontTtfBase.cs:391-395 | a byte read is in 0..255 |
| Bytes.U16At | SharpReport/PDF/XrefFontTtfBase.cs:397-401 | a big-endian 16-bit read is in 0..65535 |
| Bytes.I16At | SharpReport/PDF/XrefFontTtfBase.cs:385-389 | a signed 16-bit read is in -32768..32767 |
| Bytes.U32At | SharpReport/PDF/XrefFontTtfBase.cs:403-407 | the unsigned value of four big-endian bytes is in 0..2^32-1 |
| Bytes.I32At | SharpReport/PDF/XrefFontTtfBase.cs:403-407 | `GetUInt32` gives a C# `int`: the unsigned value when below 2^31, and that value less 2^32 otherwise |
| Bytes.U16RoundTrip | SharpReport/PDF/XrefFontTtfBase.cs:397-401 | a 16-bit value written big-endian reads back unchanged |
| Bytes.I16RoundTrip | SharpReport/PDF/XrefFontTtfBase.cs:385-389 | a signed 16-bit value stored as its two's-complement pattern reads back unchanged |
| Bytes.I32RoundTrip | SharpReport/PDF/XrefFontTtfBase.cs:403-407 | every signed 32-bit value stored as its pattern reads back unchanged through `GetUInt32` |
| Bytes.AsciiRoundTrip | SharpReport/PDF/XrefFontTtfBase.cs:409-413 | a tag of ASCII characters, such as "head" or "cmap", stored one byte per character reads back unchanged through `GetString` |
| Bytes.U16sRoundTrip | SharpReport/PDF/XrefFontTtfBase.cs:280-302 | an array of 16-bit values written big-endian one after the other reads back unchanged through the array loops of format 4 |
| Bytes.I32sRoundTrip | SharpReport/PDF/XrefFontTtfBase.cs:403-407 | in an array of signed 32-bit values stored as their patterns, entry k reads back unchanged at byte 4k |
| Glyphs.FontGlyph.WithUnicode | SharpReport/PDF/FontGlyph.cs:21-24 | the (int, int) constructor sets width and unicode; the side bearing and the file position are 0 |
| Glyphs.FontGlyph.WithBearing | SharpReport/PDF/FontGlyph.cs:26-29 | the (int, ushort) constructor sets width and leftSideBearing; unicode and the file position are 0 |
| Glyphs.FontGlyph.SetFilePosition | SharpReport/PDF/FontGlyph.cs:31-38 | sets the file offset and length and leaves width, unicode and leftSideBearing unchanged |
| Glyphs.FontGlyph.SetUnicode | SharpReport/PDF/FontGlyph.cs:42 | the setter overwrites unicode and changes nothing else |
| Glyphs.View | SharpReport/PDF/XrefFont.cs:76 | a glyph slot has a value exactly when it is not null |
| CharMap.Assign | SharpReport/PDF/XrefFontTtfBase.cs:264-265 | `Add` then `Glypth[g].unicode = code` succeeds exactly when the code is new and slot g exists and is occupied; it then maps the code to g, marks glyph g with the code and changes no other glyph; a code already present fails with DuplicateCode |
| CharMap.RunSucceedsIff | SharpReport/PDF/XrefFontTtfBase.cs:260-350 | a decoder's loop succeeds exactly when every iteration adds a fresh code for an existing glyph, all codes distinct |
| CharMap.RunKeys | SharpReport/PDF/XrefFontTtfBase.cs:260-350 | a successful decoding adds exactly the codes of its iterations and keeps every earlier entry |
| CharMap.RunEntry | SharpReport/PDF/XrefFontTtfBase.cs:260-350 | every iteration of a successful decoding left its code mapped to its glyph, a glyph that existed |
| CharMap.RunGlyphs | SharpReport/PDF/XrefFontTtfBase.cs:260-350 | a successful decoding keeps the glyph table's size and leaves each glyph's unicode at the last code that targeted it, so the last code wins |
| CharMap.RunKeepsTargetsValid | SharpReport/PDF/XrefFontTtfBase.cs:260-350 | decoding keeps every dictionary entry pointing at an existing glyph |
| CharMap.RunConcat | SharpReport/PDF/XrefFontTtfBase.cs:304-317 | running two stretches of iterations is running the first, then the second from where it left off |
| CharMap.RunSnoc | SharpReport/PDF/XrefFontTtfBase.cs:262-266 | one more loop turn is one more step on the state the earlier turns left |
| CharMap.RunStopsAtFailure | SharpReport/PDF/XrefFontTtfBase.cs:260-350 | once an iteration fails, the later ones do not matter: the exception ends the decoder |
| CharMap.RunStep | SharpReport/PDF/XrefFontTtfBase.cs:262-266 | turn k of a loop runs step k on the state of the first k turns, and a failing turn ends the loop with its error |
| CharMap.StopStep | SharpReport/PDF/XrefFontTtfBase.cs:310-311 | a turn that fails (a read past the end, a bad glyphIdArray index) ends the whole decoding with its error |
| CharMap.FlattenContains | SharpReport/PDF/XrefFontTtfBase.cs:304-305 | an inner-loop iteration of any outer turn is one of the iterations of the nested loop |
| CharMap.FlattenSnoc | SharpReport/PDF/XrefFontTtfBase.cs:304-305 | one more outer turn appends its inner iterations |
| CharMap.FlattenConcat | SharpReport/PDF/XrefFontTtfBase.cs:304-305 | the iterations of two runs of outer turns are those of the first, then those of the second |
| CharMap.RunPartsFlatten | SharpReport/PDF/XrefFontTtfBase.cs:304-305 | running a nested loop outer turn by outer turn is running all its inner iterations in order |
| CharMap.RunPartStep | SharpReport/PDF/XrefFontTtfBase.cs:338-349 | outer turn i runs its inner iterations from the state of the earlier turns, and a failure there ends the whole loop |
| CharMap.KeysOfBounds | SharpReport/PDF/XrefFontTtfBase.cs:262-264 | iterations whose codes lie in a range add only codes of that range |
| CharMap.KeysOfMember | SharpReport/PDF/XrefFontTtfBase.cs:264 | every code a decoder loop adds is the code of one of its iterations |
| CharMap.FlattenMember | SharpReport/PDF/XrefFontTtfBase.cs:304-305 | every iteration of a nested loop belongs to one of its outer turns |
| CharMap.FlattenKey | SharpReport/PDF/XrefFontTtfBase.cs:304-305 | a code a nested loop adds is the code of some inner iteration of some outer turn |
| CharMap.Format0SucceedsIff | SharpReport/PDF/XrefFontTtfBase.cs:260-267 | format 0 succeeds exactly when its 256 bytes are in the buffer, no code 0..255 is already mapped and every byte names an existing glyph |
| CharMap.Format0Codes | SharpReport/PDF/XrefFontTtfBase.cs:260-267 | after format 0, code i maps to byte i for i in 0..255, and no other code is added |
| CharMap.Format6Entry | SharpReport/PDF/XrefFontTtfBase.cs:325-329 | after a successful format 6 run, entry k was read and firstCode + k maps to it |
| CharMap.Format6Keys | SharpReport/PDF/XrefFontTtfBase.cs:325-329 | format 6 adds only the codes firstCode .. firstCode + entryCount - 1 |
| CharMap.Format6Mapped | SharpReport/PDF/XrefFontTtfBase.cs:325-329 | a successful format 6 run read all entries and maps each code of the range to its entry |
| CharMap.Format6Codes | SharpReport/PDF/XrefFontTtfBase.cs:320-330 | after format 6, firstCode + k maps to the k-th glyph id for every k < entryCount, and no other code is added |
| CharMap.Format4Arrays | SharpReport/PDF/XrefFontTtfBase.cs:271-302 | the four segment arrays read have segCount entries each |
| CharMap.SegmentSteps | SharpReport/PDF/XrefFontTtfBase.cs:305 | the inner loop of a segment runs endCount - startCount + 1 times, or not at all when endCount < startCount |
| CharMap.Format4Codes | SharpReport/PDF/XrefFontTtfBase.cs:304-316 | after format 4, code c of segment s maps to idDelta[s] + c when idRangeOffset[s] is 0, and otherwise to glyphIdArray[c - startCount[s] + s + idRangeOffset[s]/2 - segCount], an index inside the array |
| CharMap.SegmentCode | SharpReport/PDF/XrefFontTtfBase.cs:305 | iteration z of segment s handles code startCount[s] + z, which lies between startCount[s] and endCount[s] |
| CharMap.Format4Keys | SharpReport/PDF/XrefFontTtfBase.cs:304-317 | a successful format 4 decoding adds no code outside its segments: every new code lies between startCount[s] and endCount[s] of some segment s |
| CharMap.Format4RejectsBadRangeShift | SharpReport/PDF/XrefFontTtfBase.cs:277-278 | a rangeShift other than 2 * segCount - searchRange fails format 4 as Malformed |
| CharMap.GroupSteps | SharpReport/PDF/XrefFontTtfBase.cs:343-348 | a group's inner loop runs endCharCode - startCharCode + 1 times (none when the end is below the start), or, for an end of int.MaxValue, until the glyph index leaves the table |
| CharMap.GroupLastFails | SharpReport/PDF/XrefFontTtfBase.cs:344-347 | in a group ending at int.MaxValue the last turn counted always fails, so the wrapped counter never ends the loop normally |
| CharMap.Format12Groups | SharpReport/PDF/XrefFontTtfBase.cs:336-349 | format 12 is its groups run one after the other, none when numGroups is negative |
| CharMap.GroupCodes | SharpReport/PDF/XrefFontTtfBase.cs:343-348 | a group of a successful run did not end at int.MaxValue, and maps each code c in it to startGlyphID + (c - startCharCode) |
| CharMap.Format12Codes | SharpReport/PDF/XrefFontTtfBase.cs:332-350 | after format 12, every code c of group k maps to startGlyphID + (c - startCharCode), and no group ended at int.MaxValue |
| CharMap.GroupCode | SharpReport/PDF/XrefFontTtfBase.cs:344-347 | in a group that does not end at int.MaxValue, iteration z handles code startCharCode + z with no wrap-around, and that code lies in the group |
| CharMap.Format12Key | SharpReport/PDF/XrefFontTtfBase.cs:338-349 | a code a successful format 12 decoding adds lies between startCharCode and endCharCode of one of its groups |
| CharMap.Format12Keys | SharpReport/PDF/XrefFontTtfBase.cs:332-350 | a successful format 12 decoding adds no code outside its groups |
| CharMap.ScanStops | SharpReport/PDF/XrefFontTtfBase.cs:214-223 | once an encoding record cannot be read, the scan fails with that error |
| CharMap.RunKeeps | SharpReport/PDF/XrefFontTtfBase.cs:260-350 | a successful decoding keeps the glyph table, its occupied slots, every glyph but its code, and the old entries, and all entries point at existing glyphs |
| CharMap.SubtableKeeps | SharpReport/PDF/XrefFontTtfBase.cs:225-257 | whatever the format, decoding a subtable keeps the glyph table as `RunKeeps` states |
| CharMap.CmapKeepsGlyphTable | SharpReport/PDF/XrefFontTtfBase.cs:206-258 | cmap never changes the size of the glyph table or any glyph but its code, keeps the old entries, and leaves every entry pointing at an existing glyph |
| CharMap.CmapSelects | SharpReport/PDF/XrefFontTtfBase.cs:225-257 | cmap decodes the (3, 10) subtable when its position is positive, else the (1, 0) subtable, else nothing; a chosen subtable in a format other than 0, 4, 6 and 12, or in format 12 under (1, 0), leaves the map unchanged without error |
| Tables.RecordsHold | SharpReport/PDF/XrefFontTtfBase.cs:64-72 | after a successful directory read, the tag of every record is in the dictionary (and was not before) with the record's checksum, offset and length |
| Tables.RecordsGrow | SharpReport/PDF/XrefFontTtfBase.cs:64-72 | the directory read keeps every entry the dictionary already had |
| Tables.DuplicateTagFails | SharpReport/PDF/XrefFontTtfBase.cs:67 | two records with the same tag make the directory read fail |
| Tables.RecordsPrefix | SharpReport/PDF/XrefFontTtfBase.cs:64-72 | a directory read to the end read each of its prefixes |
| Tables.RecordsStops | SharpReport/PDF/XrefFontTtfBase.cs:64-72 | once a record fails, the directory read fails the same way |
| Tables.ParseHead | SharpReport/PDF/XrefFontTtfBase.cs:124-177 | head gives a 16-bit unitsPerEm and a four-entry bounding box |
| Tables.ParseHhea | SharpReport/PDF/XrefFontTtfBase.cs:179-204 | hhea gives a 16-bit numberOfHMetrics |
| Tables.HeadChecks | SharpReport/PDF/XrefFontTtfBase.cs:127-139 | head is accepted only at version 1.0 with magic number 0x5F0F3CF5, and only when its 52 bytes are in the buffer |
| Tables.HeadRoundTrip | SharpReport/PDF/XrefFontTtfBase.cs:124-177 | a head table written with any 16-bit unitsPerEm, signed 16-bit bounding box and indexToLocFormat reads back exactly those values: unitsPerEm at +18, the box at +36, indexToLocFormat at +50 |
| Tables.HheaRoundTrip | SharpReport/PDF/XrefFontTtfBase.cs:179-204 | an hhea table written with any signed 16-bit ascender and descender and 16-bit numberOfHMetrics reads back exactly those values: ascender at +4, descender at +6, numberOfHMetrics at +34 |
| Tables.HmtxStops | SharpReport/PDF/XrefFontTtfBase.cs:357-359 | once a metric fails, the hmtx read fails the same way |
| Tables.HmtxGlyphs | SharpReport/PDF/XrefFontTtfBase.cs:352-360 | hmtx gives exactly numberOfHMetrics glyphs; glyph i has width advanceWidth_i * 1000 / unitsPerEm, truncated, the raw leftSideBearing_i, and no code or file position |
| Tables.HmtxZeroEm | SharpReport/PDF/XrefFontTtfBase.cs:358 | a unitsPerEm of 0 fails hmtx with DivideByZero as soon as there is a metric |
| Tables.ShortOffsetAt | SharpReport/PDF/XrefFontTtfBase.cs:91-98 | one short loca entry reads back as twice the 16-bit value written for it |
| Tables.ShortOffsetsRoundTrip | SharpReport/PDF/XrefFontTtfBase.cs:91-98 | short loca entries read back as twice the 16-bit values written for them, so every offset lies in 0..131070 |
| Tables.LongOffsetsRoundTrip | SharpReport/PDF/XrefFontTtfBase.cs:99-107 | long loca entries read back every signed 32-bit offset written for them |
| Tables.Grown | SharpReport/PDF/XrefFontTtfBase.cs:110-112 | `Array.Resize` to n grows a shorter table to n, keeps its slots and adds null slots; a longer table is unchanged |
| Tables.LocateResult | SharpReport/PDF/XrefFontTtfBase.cs:110-121 | loca grows the table to the number of entries and never shrinks it; glyph i < n - 1 gets offset glyf.offset + loca[i] and length loca[i + 1] - loca[i] and keeps its width, code and side bearing; the other glyphs are unchanged |
| Tables.LocateNeedsGlyphs | SharpReport/PDF/XrefFontTtfBase.cs:110-118 | when loca has two or more entries more than there are glyphs, the loop reaches a null slot and fails with NullReference |
| Tables.LoadRejectsDirectory | SharpReport/PDF/XrefFontTtfBase.cs:49-62 | loading fails on an sfnt version other than 0x00010000 and 0x4F54544F, and on a rangeShift other than numTables * 16 - searchRange |
| Tables.LoadRejectsHeaders | SharpReport/PDF/XrefFontTtfBase.cs:124-139 | after the directory, loading fails when head is not version 1.0, when head's magic number is wrong, and when hhea is not version 1.0 |
| Tables.OutlinesKeep | SharpReport/PDF/XrefFontTtfBase.cs:77-83 | cmap and loca never shrink the glyph table, keep every glyph's width and side bearing, and leave the code map naming present glyphs |
| Tables.LoadedGlyphs | SharpReport/PDF/XrefFontTtfBase.cs:74-83 | after loading, glyph i < numberOfHMetrics holds width advanceWidth_i * 1000 / unitsPerEm and the raw leftSideBearing_i, and every code names a present glyph |
| Tables.KeptMetrics | SharpReport/PDF/XrefFontTtfBase.cs:352-360 | glyphs that keep the widths and side bearings of hmtx hold the scaled advance and the side bearing of each metric |
| UsedChars.AddChar | SharpReport/PDF/XrefFont.cs:156-163 | adding c inserts it into hashChar, makes FirstChar the smaller of FirstChar and c (c when null) and LastChar the larger of LastChar and c, and keeps the invariant |
| UsedChars.AddPresentChar | SharpReport/PDF/XrefFont.cs:156-163 | adding a character already in hashChar changes nothing |
| UsedChars.DeterminedByChars | SharpReport/PDF/XrefFont.cs:124-126 | under the invariant, FirstChar and LastChar are determined by hashChar |
| UsedChars.TextChars | SharpReport/PDF/XrefFont.cs:142-146 | SetText keeps the invariant and adds exactly the characters of the text |
| UsedChars.TextOrderFree | SharpReport/PDF/XrefFont.cs:142-146 | the state after SetText depends only on the set of characters written, not on their order or repetition |
| UsedChars.TextIdempotent | SharpReport/PDF/XrefFont.cs:142-146 | writing the same text twice has the effect of writing it once |
| UsedChars.TextBounds | SharpReport/PDF/XrefFont.cs:124-126 | from the initial state, FirstChar and LastChar after a text are its smallest and largest code, both in it, FirstChar is null only for the empty text, and LastChar is then -1 |
| Kerning.PairKeyValue | SharpReport/PDF/XrefFont.cs:58 | `(previousChar << 16) + ch` is the unsigned value less 2^32 when previousChar is 0x8000 or more |
| Kerning.PairKeyInjective | SharpReport/PDF/XrefFont.cs:58 | two pairs of characters with the same kerning key are the same pair |
| Kerning.KernedWidthConcat | SharpReport/PDF/XrefFont.cs:53-64 | the width of a concatenation is the widths of the parts plus the kerning of the pair where they meet |
| Kerning.KernedWidthShort | SharpReport/PDF/XrefFont.cs:51-57 | the empty text has width 0, and a text of one character has its glyph's width, with no kerning |
| Kerning.NoKerning | SharpReport/PDF/XrefFont.cs:57-61 | with an empty kerning table, no pair adds anything |
| Kerning.UnmappedAddNothing | SharpReport/PDF/XrefFont.cs:54-55 | characters with no glyph add nothing to the width |
| Descriptor.DigitChar | SharpReport/PDF/XrefFontTtfBase.cs:423 | each digit is written as the character '0' + d |
| Descriptor.NatToStringRoundTrip | SharpReport/PDF/XrefFontTtfBase.cs:423-431 | a natural number is written as decimal digits that read back as the number |
| Descriptor.IntToStringRoundTrip | SharpReport/PDF/XrefFontTtfBase.cs:423-435 | every integer written is a decimal integer, with a '-' when negative, that reads back as itself |
| Descriptor.JoinedSnoc | SharpReport/PDF/XrefFontTtfBase.cs:425-431 | one more width appends a space and its decimal form |
| Descriptor.WidthsEntries | SharpReport/PDF/XrefFontTtfBase.cs:422-434 | with no character written the array is empty; otherwise it fails exactly when FirstChar has no glyph and has LastChar - FirstChar + 1 entries, entry i being 0 for an unused code, Width for a used but unmapped one, and the glyph's width otherwise |
| Descriptor.WidthsFirst | SharpReport/PDF/XrefFontTtfBase.cs:422-424 | the array has LastChar - FirstChar + 1 entries, the first being FirstChar's glyph width |
| Descriptor.Fields | SharpReport/PDF/XrefFontTtfBase.cs:425 | splitting at the spaces gives at least one field |
| Descriptor.FieldsAppend | SharpReport/PDF/XrefFontTtfBase.cs:425 | appending a space and a word with no space adds that word as one field |
| Descriptor.NoSpaceInNumber | SharpReport/PDF/XrefFontTtfBase.cs:423-431 | a written number contains no space |
| Descriptor.FieldsOfWord | SharpReport/PDF/XrefFontTtfBase.cs:423 | a word with no space is a single field |
| Descriptor.JoinedRoundTrip | SharpReport/PDF/XrefFontTtfBase.cs:422-434 | the written /Widths array splits into one decimal field per width, each reading back as that width |
| TrueType.TtfFont.constructor | SharpReport/PDF/XrefFontTtfBase.cs:29-41 | the defaults set before reading: the bounding box, ascent 800, descent -200, Width 1000, no character written (LastChar -1), empty dictionaries; the object is valid |
| TrueType.TtfFont.GetUInt8 | SharpReport/PDF/XrefFontTtfBase.cs:391-395 | reads the byte at the cursor and advances it by 1; out of bounds fails |
| TrueType.TtfFont.GetUInt16 | SharpReport/PDF/XrefFontTtfBase.cs:397-401 | reads the big-endian 16-bit value at the cursor and advances it by 2; out of bounds fails |
| TrueType.TtfFont.GetInt16 | SharpReport/PDF/XrefFontTtfBase.cs:385-389 | reads the signed 16-bit value at the cursor and advances it by 2; out of bounds fails |
| TrueType.TtfFont.GetUInt32 | SharpReport/PDF/XrefFontTtfBase.cs:403-407 | reads four bytes at the cursor as a C# `int` and advances it by 4; out of bounds fails |
| TrueType.TtfFont.GetString | SharpReport/PDF/XrefFontTtfBase.cs:409-413 | decodes n bytes at the cursor as ASCII and advances it by n; out of bounds fails |
| TrueType.TtfFont.Skip | SharpReport/PDF/XrefFontTtfBase.cs:415-417 | only adds n to the cursor |
| TrueType.TtfFont.GetUInt16s | SharpReport/PDF/XrefFontTtfBase.cs:280-302 | an array loop of format 4: n 16-bit values from the cursor, which advances by 2n |
| TrueType.TtfFont.MapStep | SharpReport/PDF/XrefFontTtfBase.cs:262-266 | turn k of a decoder loop performs step k on the state the first k turns left; a failing turn ends the whole decoding with its error |
| TrueType.TtfFont.ReadAndMap | SharpReport/PDF/XrefFontTtfBase.cs:263-265 | reads the glyph id at the cursor, advancing it, and performs the turn it describes |
| TrueType.TtfFont.AddCode | SharpReport/PDF/XrefFontTtfBase.cs:264-265 | performs `Assign` on the dictionary and the glyph objects: the new state is the one `Assign` gives, and it fails exactly as `Assign` does |
| TrueType.TtfFont.ProcessCMAP0 | SharpReport/PDF/XrefFontTtfBase.cs:260-267 | the format 0 loop: the new dictionary and glyphs are the run of `Format0Steps`, and it fails exactly as that run does |
| TrueType.TtfFont.MapSegmentCode | SharpReport/PDF/XrefFontTtfBase.cs:306-315 | one inner turn of format 4 for code c: the glyph from idDelta or glyphIdArray, then the entry and the glyph's code |
| TrueType.TtfFont.MapSegment | SharpReport/PDF/XrefFontTtfBase.cs:305-316 | the inner loop of format 4 for segment s performs the run of `SegmentSteps` |
| TrueType.TtfFont.MapSegments | SharpReport/PDF/XrefFontTtfBase.cs:304-317 | the segment loops of format 4 perform the run of all segments' iterations in order |
| TrueType.TtfFont.ReadSegmentHeader | SharpReport/PDF/XrefFontTtfBase.cs:271-278 | reads the format 4 header as `Format4Header`, with the rangeShift cross-check |
| TrueType.TtfFont.ReadSegments | SharpReport/PDF/XrefFontTtfBase.cs:271-302 | reads the format 4 arrays as `Format4Arrays`, failing at the same point |
| TrueType.TtfFont.ProcessCMAP4 | SharpReport/PDF/XrefFontTtfBase.cs:270-318 | format 4 computes `Format4` of the buffer and the old state |
| TrueType.TtfFont.MapEntries | SharpReport/PDF/XrefFontTtfBase.cs:325-329 | the entry loop of format 6 performs the run of its steps |
| TrueType.TtfFont.ProcessCMAP6 | SharpReport/PDF/XrefFontTtfBase.cs:320-330 | format 6 computes `Format6` of the buffer and the old state |
| TrueType.TtfFont.MapGroupCode | SharpReport/PDF/XrefFontTtfBase.cs:345-347 | one inner turn of format 12; the counter it leaves is the wrapped `j + 1`, and in a group ending at int.MaxValue a turn that succeeds is never the last one counted |
| TrueType.TtfFont.MapGroup | SharpReport/PDF/XrefFontTtfBase.cs:343-348 | the inner loop of one format 12 group, with its wrapping C# `int` counter, performs the run of `GroupSteps` and terminates |
| TrueType.TtfFont.ReadGroup | SharpReport/PDF/XrefFontTtfBase.cs:339-341 | reads startCharCode, endCharCode and startGlyphID as C# `int`s |
| TrueType.TtfFont.MapGroupRecord | SharpReport/PDF/XrefFontTtfBase.cs:339-348 | one turn of the group loop: reads the 12-byte record and runs its group, as `GroupRecordSteps` |
| TrueType.TtfFont.MapGroups | SharpReport/PDF/XrefFontTtfBase.cs:338-349 | the group loop of format 12 computes `Format12` |
| TrueType.TtfFont.ProcessCMAP12 | SharpReport/PDF/XrefFontTtfBase.cs:332-350 | format 12 computes `Format12` of the buffer and the old state |
| TrueType.TtfFont.ProcessSubtable | SharpReport/PDF/XrefFontTtfBase.cs:225-257 | reads the format and dispatches to the decoder, computing `Subtable`; an unknown format (or 12 outside (3, 10)) does nothing |
| TrueType.TtfFont.ReadEncodingRecord | SharpReport/PDF/XrefFontTtfBase.cs:215-217 | reads platformID, encodingID and the subtable offset of one encoding record, failing past the end of the buffer |
| TrueType.TtfFont.ScanRecords | SharpReport/PDF/XrefFontTtfBase.cs:214-223 | the encoding record loop computes `Scan`: the last (1, 0) and (3, 10) subtable positions, as wrapped `int` sums |
| TrueType.TtfFont.ProcessCMAP | SharpReport/PDF/XrefFontTtfBase.cs:206-258 | cmap computes `Cmap` of the buffer and the old state |
| TrueType.TtfFont.ReadVersion | SharpReport/PDF/XrefFontTtfBase.cs:127-132 | reads majorVersion and minorVersion and fails with NotSupported unless they are 1.0 |
| TrueType.TtfFont.ReadBoundingBox | SharpReport/PDF/XrefFontTtfBase.cs:159-162 | the four signed 16-bit coordinates go into `boundingBox` in order |
| TrueType.TtfFont.ReadHeadStart | SharpReport/PDF/XrefFontTtfBase.cs:127-139 | the version and the magic number checks of head, as `CheckHeadStart` |
| TrueType.TtfFont.ProcessHead | SharpReport/PDF/XrefFontTtfBase.cs:124-177 | head computes `ParseHead`: unitsPerEm, the bounding box and indexToLocFormat are set from it, and it fails exactly when `ParseHead` does |
| TrueType.TtfFont.ProcessHHEA | SharpReport/PDF/XrefFontTtfBase.cs:179-204 | hhea computes `ParseHhea`: the ascender, the descender and numberOfHMetrics are set from it |
| TrueType.TtfFont.ReadMetric | SharpReport/PDF/XrefFontTtfBase.cs:358 | reads one metric as `HmtxEntry`: the advance, the division by unitsPerEm, then the side bearing |
| TrueType.TtfFont.NewMetricGlyph | SharpReport/PDF/XrefFontTtfBase.cs:358 | creates a new glyph object holding metric i, as `HmtxEntry`, or fails as it does |
| TrueType.TtfFont.ProcessHMTX | SharpReport/PDF/XrefFontTtfBase.cs:352-360 | hmtx replaces the glyph table with new, distinct glyph objects whose values are `Hmtx` of the buffer |
| TrueType.TtfFont.ReadLoca | SharpReport/PDF/XrefFontTtfBase.cs:87-107 | the loca loops compute `LocaOffsets` |
| TrueType.TtfFont.SetGlyphPosition | SharpReport/PDF/XrefFontTtfBase.cs:118 | setting glyph i's position changes glyph i only, since no glyph object is in two slots |
| TrueType.TtfFont.LocateGlyphs | SharpReport/PDF/XrefFontTtfBase.cs:115-121 | the position loop computes `Positioned`, failing on a null slot |
| TrueType.TtfFont.ProcessGLYPH | SharpReport/PDF/XrefFontTtfBase.cs:86-122 | glyf and loca compute `GlyphPositions`; the table is grown, never shrunk, and keeps its objects |
| TrueType.TtfFont.ReadTableRecord | SharpReport/PDF/XrefFontTtfBase.cs:65-71 | reads a record as `RecordAt`: the tag, then checksum, offset and length |
| TrueType.TtfFont.AddTableRecord | SharpReport/PDF/XrefFontTtfBase.cs:65-71 | one turn of the record loop extends `Records` by one record, failing on a duplicate tag |
| TrueType.TtfFont.ReadTableRecords | SharpReport/PDF/XrefFontTtfBase.cs:64-72 | the record loop computes `Records` |
| TrueType.TtfFont.ReadDirectory | SharpReport/PDF/XrefFontTtfBase.cs:49-72 | the directory computes `Directory`, with the version and rangeShift checks |
| TrueType.TtfFont.TableOf | SharpReport/PDF/XrefFontTtfBase.cs:74-77 | `dctTables[tag]` as `Lookup` |
| TrueType.TtfFont.ProcessMetrics | SharpReport/PDF/XrefFontTtfBase.cs:74-76 | head, hhea and hmtx in order compute `LoadMetrics`, and the glyph table then holds new, distinct objects |
| TrueType.TtfFont.ProcessOutlines | SharpReport/PDF/XrefFontTtfBase.cs:77-83 | cmap, the font name, then glyf and loca compute `LoadOutlines` |
| TrueType.TtfFont.ProcessTables | SharpReport/PDF/XrefFontTtfBase.cs:74-83 | the table readers in order compute `LoadTables`, and the result has every code naming a present glyph |
| TrueType.TtfFont.Process | SharpReport/PDF/XrefFontTtfBase.cs:46-84 | the whole reading computes `Load`: every field is what `Load` gives, it fails exactly when `Load` does, and a success leaves the object valid |
| TrueType.TtfFont.GetGlyphId | SharpReport/PDF/XrefFont.cs:130-132 | succeeds exactly for a mapped code, failing with KeyNotFound otherwise |
| TrueType.TtfFont.GetGlyph | SharpReport/PDF/XrefFont.cs:134-136 | succeeds exactly for an index inside the glyph table |
| TrueType.TtfFont.MappedGlyph | SharpReport/PDF/XrefFont.cs:130-136 | on a valid font, a mapped code leads through both lookups to a glyph object holding the value the code map records; an unmapped code fails at the first |
| TrueType.TtfFont.AddNewChar | SharpReport/PDF/XrefFont.cs:156-163 | the new used-character state is `AddChar` of the old one |
| TrueType.TtfFont.SetText | SharpReport/PDF/XrefFont.cs:142-146 | the new used-character state is `Text` of the old one, and the object stays valid |
| TrueType.TtfFont.GetWidthPointKerned | SharpReport/PDF/XrefFont.cs:48-64 | the accumulator loop computes `KernedWidth`: the sum of the mapped glyphs' widths plus the kerning of each listed adjacent pair |
| TrueType.TtfFont.WidthOf | SharpReport/PDF/XrefFontTtfBase.cs:426-432 | the width written for one code after FirstChar, as `WidthEntry` |
| TrueType.TtfFont.AppendWidth | SharpReport/PDF/XrefFontTtfBase.cs:425-432 | appends a space and the width of code c, keeping the text equal to the widths joined so far |
| TrueType.TtfFont.JoinWidths | SharpReport/PDF/XrefFontTtfBase.cs:424-433 | the loop after FirstChar writes the widths joined by single spaces |
| TrueType.TtfFont.WriteWidths | SharpReport/PDF/XrefFontTtfBase.cs:420-434 | the /Widths text is `Joined` of `Widths`, and it fails exactly when `Widths` does |
| TrueType.TtfFont.Write | SharpReport/PDF/XrefFontTtfBase.cs:419-436 | the dictionary is `FontDict` of the state and the descriptor's object number, and it fails exactly when that does |

## Left out

- Reading the file (`File.ReadAllBytes`) and deriving the font name from the path
  (`Path.GetFileNameWithoutExtension`) are I/O and library calls. The buffer and the name are
  parameters: the constructor takes the bytes, and `Process` takes the name.
- The C# constructor calls `Process` itself. Here the constructor sets the defaults and
  `Process` is a separate call.
- Floating point is left out: `GetAscendent`, `GetDescendent`, and the final `* 0.001f * size`
  of `GetWidthPointKerned`.
- TrueType.TtfFont.GetWidthPointKerned: returns the integer `currentSize + kerning`. The C#
  adds the widths in a `float`, which is exact only while the sum stays below 2^24; that
  rounding is not modelled.
- `GetBytes`, the `Xref` base class and `m_descriptor` are not part of this model. The
  descriptor's object number is a parameter of `Write`, and the result is a string.
- `GetFont` only returns the buffer, which is the `buf` field here.
- Fields that are set once or never read by the core are left out: `ItalicAngle`, `Leading`,
  `CapHeight`, `StemV`, `isUnicode`, `fontsFlags`, `FullFileName` beyond storing it.
- `FontMock` is left out: it is a stand-in font class with no reading logic.
- The reader's local arrays (`glyphOffset`, the format 4 arrays) are sequences. The float-free
  kerning table `dctKerning` holds `int` values; the `short` bound is not stated.
- The state after an exception is not stated. A method that fails says which error it failed
  with, not what it had already changed.
- Several loops of the reader are split into a method per loop and a method per turn. The
  split is for verification and does not change the order of the reads and updates.
- Positions are unbounded integers. The cursor never wraps, since every position the reader
  uses is checked against the buffer length, which is below 2^31.
