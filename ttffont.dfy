/**
  The TrueType font object: the reader that fills it from the font file's bytes, table by table,
  with a cursor that every read advances, and the operations that record the characters written
  with the font and produce its PDF font dictionary.

  Each method that reads a table is proved to compute exactly the function of the buffer that
  describes that table (Tables, CharMap); the properties of the reading are proved about those
  functions.
*/
module TrueType {
  import opened Bytes
  import opened Errors
  import opened Glyphs
  import opened CharMap
  import opened Tables
  import opened UsedChars
  import opened Kerning
  import opened Descriptor

  class TtfFont {
    /** `TTFFont`: the bytes of the font file. */
    const buf: seq<uint8>
    const fullFileName: string
    /** `filePosition`: the cursor. */
    var pos: int
    /** `dctTables`. */
    var tables: map<string, Table>
    var unitsPerEm: uint16
    var numberOfHMetrics: uint16
    /** xMin, yMin, xMax, yMax. */
    const boundingBox: array<int>
    var indexToLocFormat: int
    var ascendent: int
    var descendent: int
    /** The width written for a character the font has no glyph for. */
    var width: int
    var fontName: string
    /** `Glypth`: slots are null until hmtx fills them, and loca may add null slots. */
    var glyphs: seq<FontGlyph?>
    /** `dctCharCodeToGlyphID`. */
    var codes: map<int, int>
    /** `dctKerning`: kerning by `(previousChar << 16) + ch`; nothing in the reader fills it. */
    var kerning: map<int, int>
    /** `FirstChar`, `LastChar` and `hashChar`. */
    var firstChar: Option<int>
    var lastChar: int
    var hashChar: set<int>

    /** The code map together with the current values of the glyphs. */
    ghost function CM(): CodeMap
      reads this, glyphs
    {
      CodeMap(codes, Snapshot(glyphs))
    }

    function UsedState(): Used
      reads this
    {
      Used(firstChar, lastChar, hashChar)
    }

    /** What every public operation relies on: no glyph object in two slots, every code mapped to
        a present glyph, and the used-character invariant. */
    ghost predicate Valid()
      reads this, glyphs
    {
      && boundingBox.Length == 4
      && Distinct(glyphs)
      && TargetsValid(CM())
      && Inv(UsedState())
    }

    /** The state before reading: the defaults the constructor sets before `Process`. */
    constructor (buf: seq<uint8>, fileName: string)
      ensures this.buf == buf && fullFileName == fileName && pos == 0
      ensures fresh(boundingBox) && boundingBox[..] == [-1166, -638, 2260, 1050]
      ensures ascendent == 800 && descendent == -200 && width == 1000
      ensures unitsPerEm == 0 && numberOfHMetrics == 0 && indexToLocFormat == 0
      ensures tables == map[] && glyphs == [] && codes == map[] && kerning == map[] && fontName == ""
      ensures UsedState() == Empty
      ensures Valid()
    {
      this.buf := buf;
      fullFileName := fileName;
      pos := 0;
      tables := map[];
      unitsPerEm, numberOfHMetrics, indexToLocFormat := 0, 0, 0;
      var box := new int[4];
      box[0], box[1], box[2], box[3] := -1166, -638, 2260, 1050;
      boundingBox := box;
      ascendent, descendent := 800, -200;
      width := 1000;
      fontName := "";
      glyphs := [];
      codes, kerning := map[], map[];
      firstChar, lastChar, hashChar := None, -1, {};
    }

    // -------------------------------------------------------------------------------------------
    // The cursor. Each read takes its bytes at the cursor, big-endian, and advances it by their
    // number; a read past either end of the buffer fails.

    method GetUInt8() returns (o: Outcome, v: int)
      modifies this`pos
      ensures o == (if Readable(buf, old(pos), 1) then Pass else Fail(OutOfBounds))
      ensures o.Pass? ==> v == U8At(buf, old(pos)) && pos == old(pos) + 1
    {
      if !Readable(buf, pos, 1) {
        return Fail(OutOfBounds), 0;
      }
      v := U8At(buf, pos);
      pos := pos + 1;
      o := Pass;
    }

    method GetUInt16() returns (o: Outcome, v: int)
      modifies this`pos
      ensures o == (if Readable(buf, old(pos), 2) then Pass else Fail(OutOfBounds))
      ensures o.Pass? ==> v == U16At(buf, old(pos)) && pos == old(pos) + 2
    {
      if !Readable(buf, pos, 2) {
        return Fail(OutOfBounds), 0;
      }
      v := U16At(buf, pos);
      pos := pos + 2;
      o := Pass;
    }

    method GetInt16() returns (o: Outcome, v: int)
      modifies this`pos
      ensures o == (if Readable(buf, old(pos), 2) then Pass else Fail(OutOfBounds))
      ensures o.Pass? ==> v == I16At(buf, old(pos)) && pos == old(pos) + 2
    {
      if !Readable(buf, pos, 2) {
        return Fail(OutOfBounds), 0;
      }
      v := I16At(buf, pos);
      pos := pos + 2;
      o := Pass;
    }

    /** Four bytes as a C# `int`: values of 2^31 and more come out negative. */
    method GetUInt32() returns (o: Outcome, v: int)
      modifies this`pos
      ensures o == (if Readable(buf, old(pos), 4) then Pass else Fail(OutOfBounds))
      ensures o.Pass? ==> v == I32At(buf, old(pos)) && pos == old(pos) + 4
    {
      if !Readable(buf, pos, 4) {
        return Fail(OutOfBounds), 0;
      }
      v := I32At(buf, pos);
      pos := pos + 4;
      o := Pass;
    }

    /** n bytes decoded as ASCII. */
    method GetString(n: nat) returns (o: Outcome, v: string)
      modifies this`pos
      ensures o == (if ReadableRun(buf, old(pos), 1, n) then Pass else Fail(OutOfBounds))
      ensures o.Pass? ==> v == AsciiAt(buf, old(pos), n) && pos == old(pos) + n
    {
      if !ReadableRun(buf, pos, 1, n) {
        return Fail(OutOfBounds), "";
      }
      v := AsciiAt(buf, pos, n);
      pos := pos + n;
      o := Pass;
    }

    method Skip(n: int)
      modifies this`pos
      ensures pos == old(pos) + n
    {
      pos := pos + n;
    }

    /** n consecutive 16-bit values: one of the array loops of the format 4 reader. */
    method GetUInt16s(n: nat) returns (o: Outcome, vs: seq<int>)
      modifies this`pos
      ensures o == (if ReadableRun(buf, old(pos), 2, n) then Pass else Fail(OutOfBounds))
      ensures o.Pass? ==> vs == U16s(buf, old(pos), n) && pos == old(pos) + 2 * n
    {
      ghost var p := pos;
      vs := [];
      var i := 0;
      while i < n
        invariant 0 <= i <= n && pos == p + 2 * i
        invariant i > 0 ==> Readable(buf, p, 2 * i)
        invariant vs == U16s(buf, p, i)
      {
        var v :- GetUInt16();
        vs := vs + [v];
        i := i + 1;
      }
      o := Pass;
    }
 
    // -------------------------------------------------------------------------------------------
    // cmap.

    /** `dctCharCodeToGlyphID.Add(code, glyph)` then `Glypth[glyph].unicode = code`. */
    method AddCode(code: int, glyph: int) returns (o: Outcome)
      requires Distinct(glyphs)
      modifies this`codes, glyphs
      ensures glyphs == old(glyphs)
      ensures o == OutcomeOf(Assign(old(CM()), code, glyph))
      ensures o.Pass? ==> CM() == Assign(old(CM()), code, glyph).value
    {
      ghost var m := CM();
      if code in codes {
        return Fail(DuplicateCode(code));
      }
      codes := codes[code := glyph];
      if !(0 <= glyph < |glyphs|) {
        return Fail(OutOfBounds);
      }
      if glyphs[glyph] == null {
        return Fail(NullReference);
      }
      glyphs[glyph].SetUnicode(code);
      forall g | 0 <= g < |glyphs| && g != glyph ensures View(glyphs[g]) == m.glyphs[g] {
        assert glyphs[g] != glyphs[glyph];
      }
      assert Snapshot(glyphs) == m.glyphs[glyph := Some(m.glyphs[glyph].value.(unicode := code))];
      o := Pass;
    }

    /** Turn k of a decoder loop whose turns are `steps`, when that turn maps `code` to `glyph`. */
    method MapStep(ghost steps: seq<Step>, ghost k: nat, ghost m0: CodeMap, code: int, glyph: int) returns (o: Outcome)
      requires Distinct(glyphs) && k < |steps| && steps[k] == Map(code, glyph)
      requires Run(steps[..k], m0) == Ok(CM())
      modifies this`codes, glyphs
      ensures glyphs == old(glyphs)
      ensures o.Fail? ==> Run(steps, m0) == Err(o.error)
      ensures o.Pass? ==> Run(steps[..k + 1], m0) == Ok(CM())
    {
      RunStep(steps, k, m0);
      o := AddCode(code, glyph);
    }

    /** Turn k of a loop that reads the glyph id of `code` at the cursor, as `width` bytes
        (a byte for format 0, 16 bits for format 6). */
    method ReadAndMap(ghost steps: seq<Step>, ghost k: nat, ghost m0: CodeMap, code: int, width: nat) returns (o: Outcome)
      requires width == 1 || width == 2
      requires Distinct(glyphs) && k < |steps| && Run(steps[..k], m0) == Ok(CM())
      requires steps[k] == if !Readable(buf, pos, width) then Stop(OutOfBounds)
                           else Map(code, if width == 1 then U8At(buf, pos) else U16At(buf, pos))
      modifies this`pos, this`codes, glyphs
      ensures glyphs == old(glyphs)
      ensures o.Fail? ==> Run(steps, m0) == Err(o.error)
      ensures o.Pass? ==> Run(steps[..k + 1], m0) == Ok(CM()) && pos == old(pos) + width
    {
      if !Readable(buf, pos, width) {
        StopStep(steps, k, m0, CM());
      }
      var g;
      if width == 1 {
        o, g := GetUInt8();
      } else {
        o, g := GetUInt16();
      }
      if o.Fail? {
        return;
      }
      o := MapStep(steps, k, m0, code, g);
    }

    /** Format 0: after the length and language fields, one glyph byte per code 0 .. 255. */
    method ProcessCMAP0() returns (o: Outcome)
      requires Distinct(glyphs)
      modifies this`pos, this`codes, glyphs
      ensures glyphs == old(glyphs)
      ensures o == OutcomeOf(Run(Format0Steps(buf, old(pos) + 4), old(CM())))
      ensures o.Pass? ==> CM() == Run(Format0Steps(buf, old(pos) + 4), old(CM())).value
    {
      ghost var m0 := CM();
      ghost var steps := Format0Steps(buf, pos + 4);
      Skip(4);
      ghost var p := pos;
      var i := 0;
      while i < 256
        invariant 0 <= i <= 256 && pos == p + i && glyphs == old(glyphs)
        invariant Run(steps[..i], m0) == Ok(CM())
      {
        :- ReadAndMap(steps, i, m0, i, 1);
        i := i + 1;
      }
      assert steps[..256] == steps;
      o := Pass;
    }

    /** One turn of the inner loop of format 4: the glyph of code c of segment s. */
    method MapSegmentCode(ghost steps: seq<Step>, ghost k: nat, ghost m0: CodeMap, a: Segments, s: nat, c: int)
      returns (o: Outcome)
      requires a.Sized() && s < a.segCount
      requires Distinct(glyphs) && k < |steps| && steps[k] == Format4Step(a, s, c)
      requires Run(steps[..k], m0) == Ok(CM())
      modifies this`codes, glyphs
      ensures glyphs == old(glyphs)
      ensures o.Fail? ==> Run(steps, m0) == Err(o.error)
      ensures o.Pass? ==> Run(steps[..k + 1], m0) == Ok(CM())
    {
      var glyph;
      if a.idRangeOffset[s] == 0 {
        glyph := a.idDelta[s] + c;
      } else {
        var j := c - a.startCount[s] + s + a.idRangeOffset[s] / 2 - a.segCount;
        if !(0 <= j < |a.glyphIdArray|) {
          StopStep(steps, k, m0, CM());
          return Fail(OutOfBounds);
        }
        glyph := a.glyphIdArray[j];
      }
      o := MapStep(steps, k, m0, c, glyph);
    }

    /** The inner loop of format 4 for segment s: codes startCount[s] .. endCount[s]. */
    method MapSegment(ghost m0: CodeMap, a: Segments, s: nat) returns (o: Outcome)
      requires a.Sized() && s < a.segCount && Distinct(glyphs) && m0 == CM()
      modifies this`codes, glyphs
      ensures glyphs == old(glyphs)
      ensures o.Fail? ==> Run(SegmentSteps(a, s), m0) == Err(o.error)
      ensures o.Pass? ==> Run(SegmentSteps(a, s), m0) == Ok(CM())
    {
      ghost var steps := SegmentSteps(a, s);
      assert steps[..0] == [];
      var c := a.startCount[s];
      while c <= a.endCount[s]
        invariant a.startCount[s] <= c && c - a.startCount[s] <= |steps| && glyphs == old(glyphs)
        invariant Run(steps[..c - a.startCount[s]], m0) == Ok(CM())
      {
        :- MapSegmentCode(steps, c - a.startCount[s], m0, a, s, c);
        c := c + 1;
      }
      assert steps[..c - a.startCount[s]] == steps;
      o := Pass;
    }

    /** The segment loops of format 4: for each segment s, the codes startCount[s] .. endCount[s]
        in order, each mapped to idDelta[s] + code or to the glyphIdArray entry its range offset
        selects. */
    method MapSegments(a: Segments, ghost m0: CodeMap) returns (o: Outcome)
      requires a.Sized() && Distinct(glyphs) && m0 == CM()
      modifies this`codes, glyphs
      ensures glyphs == old(glyphs)
      ensures o == OutcomeOf(Run(Flatten(SegmentParts(a)), m0))
      ensures o.Pass? ==> CM() == Run(Flatten(SegmentParts(a)), m0).value
    {
      ghost var parts := SegmentParts(a);
      RunPartsFlatten(parts, m0);
      assert parts[..0] == [];
      var s := 0;
      while s < a.segCount
        invariant 0 <= s <= a.segCount && glyphs == old(glyphs)
        invariant RunParts(parts[..s], m0) == Ok(CM())
      {
        RunPartStep(parts, s, m0, CM());
        :- MapSegment(CM(), a, s);
        s := s + 1;
      }
      assert parts[..s] == parts;
      o := Pass;
    }

    /** The header of format 4: length, language, segCountX2, searchRange, entrySelector and
        rangeShift, with the rangeShift cross-check. */
    method ReadSegmentHeader() returns (o: Outcome, length: int, segCount: nat)
      modifies this`pos
      ensures Format4Header(buf, old(pos)) == if o.Pass? then Ok((length, segCount)) else Err(o.error)
      ensures o.Pass? ==> pos == old(pos) + 12
    {
      segCount := 0;
      length :- GetUInt16();
      Skip(2);
      var segCountX2 :- GetUInt16();
      segCount := segCountX2 / 2;
      var searchRange :- GetUInt16();
      Skip(2);
      var rangeShift :- GetUInt16();
      if rangeShift != 2 * segCount - searchRange {
        return Fail(Malformed), length, segCount;
      }
      o := Pass;
    }

    /** The reading half of format 4: the header, then the four segment arrays around the
        reserved pad, and glyphIdArray. */
    method ReadSegments() returns (o: Outcome, a: Segments)
      modifies this`pos
      ensures Format4Arrays(buf, old(pos)) == if o.Pass? then Ok(a) else Err(o.error)
    {
      a := Segments(0, [], [], [], [], []);
      var length, segCount;
      o, length, segCount := ReadSegmentHeader();
      if o.Fail? {
        return;
      }
      var endCount :- GetUInt16s(segCount);
      Skip(2);
      var startCount :- GetUInt16s(segCount);
      var idDelta :- GetUInt16s(segCount);
      var idRangeOffset :- GetUInt16s(segCount);
      var n := GlyphIdCount(length, segCount);
      if n < 0 {
        return Fail(NegativeArraySize), a;
      }
      var glyphIdArray :- GetUInt16s(n);
      a := Segments(segCount, endCount, startCount, idDelta, idRangeOffset, glyphIdArray);
      o := Pass;
    }

    /** Format 4: the arrays, then the segment loops. */
    method ProcessCMAP4() returns (o: Outcome)
      requires Distinct(glyphs)
      modifies this`pos, this`codes, glyphs
      ensures glyphs == old(glyphs)
      ensures o == OutcomeOf(Format4(buf, old(pos), old(CM())))
      ensures o.Pass? ==> CM() == Format4(buf, old(pos), old(CM())).value
    {
      var a :- ReadSegments();
      o := MapSegments(a, CM());
    }

    /** The entry loop of format 6: for each code ini + k with k < count, the glyph id at the
        cursor, maps code to it and moves on. */
    method MapEntries(ghost steps: seq<Step>, ghost m0: CodeMap, ini: int, count: int) returns (o: Outcome)
      requires Distinct(glyphs) && m0 == CM()
      requires count == |steps| && forall k :: 0 <= k < count ==> steps[k] == Format6Step(buf, pos, ini, k)
      modifies this`pos, this`codes, glyphs
      ensures glyphs == old(glyphs)
      ensures o == OutcomeOf(Run(steps, m0))
      ensures o.Pass? ==> CM() == Run(steps, m0).value
    {
      assert steps[..0] == [];
      var i := ini;
      while i < ini + count
        invariant ini <= i <= ini + count && pos == old(pos) + 2 * (i - ini) && glyphs == old(glyphs)
        invariant Run(steps[..i - ini], m0) == Ok(CM())
      {
        :- ReadAndMap(steps, i - ini, m0, i, 2);
        i := i + 1;
      }
      assert steps[..count] == steps;
      o := Pass;
    }

    /** Format 6: firstCode and entryCount after the length and language fields, then
        entryCount glyph ids for the codes firstCode, firstCode + 1, ... */
    method ProcessCMAP6() returns (o: Outcome)
      requires Distinct(glyphs)
      modifies this`pos, this`codes, glyphs
      ensures glyphs == old(glyphs)
      ensures o == OutcomeOf(Format6(buf, old(pos), old(CM())))
      ensures o.Pass? ==> CM() == Format6(buf, old(pos), old(CM())).value
    {
      ghost var m0 := CM();
      ghost var q := pos;
      Skip(4);
      var ini :- GetUInt16();
      var count :- GetUInt16();
      ghost var steps := Format6Steps(buf, q + 8, ini, count);
      assert Format6(buf, q, m0) == Run(steps, m0);
      o := MapEntries(steps, m0, ini, count);
    }

    /** Turn z of the inner loop of format 12: maps the counter j to startGlyphID + z, and gives
        the next counter `j + 1`, wrapped as a C# `int`. In a group ending at int.MaxValue the
        last turn counted never succeeds. */
    method MapGroupCode(ghost steps: seq<Step>, ghost m0: CodeMap, start: int, end: int, startGlyph: int, z: nat, j: int)
      returns (o: Outcome, next: int)
      requires Distinct(glyphs) && steps == GroupSteps(start, end, startGlyph, |glyphs|)
      requires z < |steps| && j == ToInt32(start + z) && (end != INT32_MAX ==> j == start + z <= end)
      requires IsInt32(end) && Run(steps[..z], m0) == Ok(CM())
      modifies this`codes, glyphs
      ensures glyphs == old(glyphs)
      ensures o.Fail? ==> Run(steps, m0) == Err(o.error)
      ensures o.Pass? ==> Run(steps[..z + 1], m0) == Ok(CM())
      ensures o.Pass? ==> next == ToInt32(start + z + 1) && (end != INT32_MAX ==> next == start + z + 1)
      ensures o.Pass? && end == INT32_MAX ==> z + 1 < |steps|
    {
      RunStep(steps, z, m0);
      if end == INT32_MAX {
        GroupLastFails(start, end, startGlyph, |glyphs|, CM());
      }
      next := 0;
      o := MapStep(steps, z, m0, j, startGlyph + z);
      if o.Pass? {
        ToInt32Succ(start + z);
        next := ToInt32(j + 1);
      }
    }

    /** The inner loop of format 12 for one group: the C# `int` counter j runs from
        startCharCode while it is at most endCharCode, mapping j to startGlyphID + z at turn z. */
    method MapGroup(ghost m0: CodeMap, start: int, end: int, startGlyph: int) returns (o: Outcome)
      requires IsInt32(start) && IsInt32(end) && Distinct(glyphs) && m0 == CM()
      modifies this`codes, glyphs
      ensures glyphs == old(glyphs)
      ensures o.Fail? ==> Run(GroupSteps(start, end, startGlyph, |glyphs|), m0) == Err(o.error)
      ensures o.Pass? ==> Run(GroupSteps(start, end, startGlyph, |glyphs|), m0) == Ok(CM())
    {
      ghost var steps := GroupSteps(start, end, startGlyph, |glyphs|);
      assert steps[..0] == [];
      var z := 0;
      var j := start;
      while j <= end
        invariant 0 <= z <= |steps| && j == ToInt32(start + z) && glyphs == old(glyphs)
        invariant end != INT32_MAX ==> j == start + z
        invariant end == INT32_MAX ==> z < |steps|
        invariant Run(steps[..z], m0) == Ok(CM())
        decreases |steps| - z
      {
        j :- MapGroupCode(steps, m0, start, end, startGlyph, z, j);
        z := z + 1;
      }
      assert steps[..z] == steps;
      o := Pass;
    }

    /** One 12-byte group record: startCharCode, endCharCode and startGlyphID, each read as a
        C# `int`. */
    method ReadGroup() returns (o: Outcome, start: int, end: int, startGlyph: int)
      modifies this`pos
      ensures o == if Readable(buf, old(pos), 4) && Readable(buf, old(pos) + 4, 4) && Readable(buf, old(pos) + 8, 4)
                   then Pass else Fail(OutOfBounds)
      ensures o.Pass? ==>
        start == I32At(buf, old(pos)) && end == I32At(buf, old(pos) + 4) && startGlyph == I32At(buf, old(pos) + 8) &&
        pos == old(pos) + 12
    {
      end, startGlyph := 0, 0;
      start :- GetUInt32();
      end :- GetUInt32();
      startGlyph :- GetUInt32();
      o := Pass;
    }

    /** Group record i of the format 12 subtable whose records start at p: the record, then
        its inner loop. */
    method MapGroupRecord(ghost p: int, ghost i: nat) returns (o: Outcome)
      requires Distinct(glyphs) && pos == p + 12 * i
      modifies this`pos, this`codes, glyphs
      ensures glyphs == old(glyphs)
      ensures Run(GroupRecordSteps(buf, p, i, |glyphs|), old(CM())) == if o.Pass? then Ok(CM()) else Err(o.error)
      ensures o.Pass? ==> pos == old(pos) + 12
    {
      var start, end, startGlyph;
      o, start, end, startGlyph := ReadGroup();
      if o.Fail? {
        assert GroupRecordSteps(buf, p, i, |glyphs|) == [Stop(OutOfBounds)];
        return;
      }
      assert GroupRecordSteps(buf, p, i, |glyphs|) == GroupSteps(start, end, startGlyph, |glyphs|);
      o := MapGroup(CM(), start, end, startGlyph);
    }

    /** The group loop of format 12, whose fields start at q: numGroups records from the
        cursor, each followed by its inner loop; a negative numGroups runs no group. */
    method MapGroups(ghost q: int, numGroups: int) returns (o: Outcome)
      requires Distinct(glyphs) && pos == q + 14 && Readable(buf, q + 10, 4) && numGroups == I32At(buf, q + 10)
      modifies this`pos, this`codes, glyphs
      ensures glyphs == old(glyphs)
      ensures Format12(buf, q, old(CM())) == if o.Pass? then Ok(CM()) else Err(o.error)
    {
      ghost var m0 := CM();
      ghost var parts := GroupParts(buf, pos, if numGroups < 0 then 0 else numGroups, |glyphs|);
      Format12Groups(buf, q, m0);
      assert parts[..0] == [];
      var i := 0;
      while i < numGroups
        invariant 0 <= i <= |parts| && pos == q + 14 + 12 * i && glyphs == old(glyphs)
        invariant RunParts(parts[..i], m0) == Ok(CM())
      {
        RunPartStep(parts, i, m0, CM());
        :- MapGroupRecord(q + 14, i);
        i := i + 1;
      }
      assert parts[..i] == parts;
      o := Pass;
    }

    /** Format 12: numGroups after the reserved, length and language fields, then the groups. */
    method ProcessCMAP12() returns (o: Outcome)
      requires Distinct(glyphs)
      modifies this`pos, this`codes, glyphs
      ensures glyphs == old(glyphs)
      ensures o == OutcomeOf(Format12(buf, old(pos), old(CM())))
      ensures o.Pass? ==> CM() == Format12(buf, old(pos), old(CM())).value
    {
      ghost var q := pos;
      Skip(10);
      var numGroups :- GetUInt32();
      o := MapGroups(q, numGroups);
    }

    /** The subtable at `start`: its format, then the decoder for that format; format 12 only
        when `allow12` (the (3, 10) subtable); any other format is ignored. */
    method ProcessSubtable(start: int, allow12: bool) returns (o: Outcome)
      requires Distinct(glyphs)
      modifies this`pos, this`codes, glyphs
      ensures glyphs == old(glyphs)
      ensures o == OutcomeOf(Subtable(buf, start, allow12, old(CM())))
      ensures o.Pass? ==> CM() == Subtable(buf, start, allow12, old(CM())).value
    {
      pos := start;
      var format :- GetUInt16();
      if format == 0 {
        o := ProcessCMAP0();
      } else if format == 4 {
        o := ProcessCMAP4();
      } else if format == 6 {
        o := ProcessCMAP6();
      } else if format == 12 && allow12 {
        o := ProcessCMAP12();
      } else {
        o := Pass;
      }
    }

    /** One encoding record: platformID, encodingID and the subtable's offset. */
    method ReadEncodingRecord() returns (o: Outcome, platformID: int, encodingID: int, offset: int)
      modifies this`pos
      ensures o == if Readable(buf, old(pos), 2) && Readable(buf, old(pos) + 2, 2) && Readable(buf, old(pos) + 4, 4)
                   then Pass else Fail(OutOfBounds)
      ensures o.Pass? ==>
        platformID == U16At(buf, old(pos)) && encodingID == U16At(buf, old(pos) + 2) && offset == I32At(buf, old(pos) + 4) &&
        pos == old(pos) + 8
    {
      encodingID, offset := 0, 0;
      platformID :- GetUInt16();
      encodingID :- GetUInt16();
      offset :- GetUInt32();
      o := Pass;
    }

    /** The encoding records of the cmap table at `off`: platformID, encodingID and offset each;
        the last (1, 0) and the last (3, 10) record give the subtable positions. */
    method ScanRecords(off: int, n: nat) returns (o: Outcome, sel: Selection)
      requires pos == off + 4
      modifies this`pos
      ensures Scan(buf, off, n) == if o.Pass? then Ok(sel) else Err(o.error)
    {
      sel := Selection(0, 0);
      var i := 0;
      while i < n
        invariant 0 <= i <= n && pos == off + 4 + 8 * i
        invariant Scan(buf, off, i) == Ok(sel)
      {
        var platformID, encodingID, offset;
        o, platformID, encodingID, offset := ReadEncodingRecord();
        if o.Fail? {
          ScanStops(buf, off, i + 1, n);
          return;
        }
        if platformID == 1 && encodingID == 0 {
          sel := sel.(cmap10 := ToInt32(off + offset));
        } else if platformID == 3 && encodingID == 10 {
          sel := sel.(cmap310 := ToInt32(off + offset));
        }
        i := i + 1;
      }
      o := Pass;
    }

    /** cmap: the number of encoding records after the version, the records, then the (3, 10)
        subtable if there is one, else the (1, 0) subtable if there is one. */
    method ProcessCMAP(t: Table) returns (o: Outcome)
      requires Distinct(glyphs)
      modifies this`pos, this`codes, glyphs
      ensures glyphs == old(glyphs)
      ensures o == OutcomeOf(Cmap(buf, t.offset, old(CM())))
      ensures o.Pass? ==> CM() == Cmap(buf, t.offset, old(CM())).value
    {
      pos := t.offset;
      Skip(2);
      var n :- GetUInt16();
      var sel :- ScanRecords(t.offset, n);
      if sel.cmap310 > 0 {
        o := ProcessSubtable(sel.cmap310, true);
      } else if sel.cmap10 > 0 {
        o := ProcessSubtable(sel.cmap10, false);
      } else {
        o := Pass;
      }
    }

    // -------------------------------------------------------------------------------------------
    // head, hhea and hmtx.

    /** majorVersion and minorVersion of head or hhea, which must be 1.0. */
    method ReadVersion() returns (o: Outcome)
      modifies this`pos
      ensures o == CheckVersion(buf, old(pos))
      ensures o.Pass? ==> pos == old(pos) + 4
    {
      var major :- GetUInt16();
      var minor :- GetUInt16();
      if major != 1 || minor != 0 {
        return Fail(NotSupported(major * 0x1_0000 + minor));
      }
      o := Pass;
    }

    /** The four 16-bit coordinates of head's bounding box, into `boundingBox`. */
    method ReadBoundingBox() returns (o: Outcome)
      requires boundingBox.Length == 4
      modifies this`pos, boundingBox
      ensures o == if Readable(buf, old(pos), 8) then Pass else Fail(OutOfBounds)
      ensures o.Pass? ==>
        pos == old(pos) + 8 &&
        boundingBox[..] == [I16At(buf, old(pos)), I16At(buf, old(pos) + 2), I16At(buf, old(pos) + 4), I16At(buf, old(pos) + 6)]
    {
      var xMin :- GetInt16();
      boundingBox[0] := xMin;
      var yMin :- GetInt16();
      boundingBox[1] := yMin;
      var xMax :- GetInt16();
      boundingBox[2] := xMax;
      var yMax :- GetInt16();
      boundingBox[3] := yMax;
      o := Pass;
    }

    /** The version and the magic number of head. */
    method ReadHeadStart() returns (o: Outcome)
      modifies this`pos
      ensures o == CheckHeadStart(buf, old(pos))
      ensures o.Pass? ==> pos == old(pos) + 16
    {
      o := ReadVersion();
      if o.Fail? {
        return;
      }
      Skip(8);
      var magic :- GetUInt32();
      if magic != HEAD_MAGIC {
        return Fail(NotSupported(magic));
      }
      o := Pass;
    }

    /** head: version 1.0 and the magic number are checked; unitsPerEm, the bounding box and
        indexToLocFormat are kept. */
    method ProcessHead(t: Table) returns (o: Outcome)
      requires boundingBox.Length == 4
      modifies this`pos, this`unitsPerEm, this`indexToLocFormat, boundingBox
      ensures o == OutcomeOf(ParseHead(buf, t.offset))
      ensures o.Pass? ==>
        var h := ParseHead(buf, t.offset).value;
        unitsPerEm as int == h.unitsPerEm && boundingBox[..] == h.bbox && indexToLocFormat == h.indexToLocFormat
    {
      pos := t.offset;
      :- ReadHeadStart();
      Skip(2);
      var upem :- GetUInt16();
      unitsPerEm := upem as uint16;
      Skip(16);
      :- ReadBoundingBox();
      Skip(6);
      indexToLocFormat :- GetInt16();
      assert ParseHead(buf, t.offset) == Ok(Head(unitsPerEm as int, boundingBox[..], indexToLocFormat));
      o := Pass;
    }

    /** hhea: version 1.0 is checked; the ascender, the descender and numberOfHMetrics are kept. */
    method ProcessHHEA(t: Table) returns (o: Outcome)
      modifies this`pos, this`ascendent, this`descendent, this`numberOfHMetrics
      ensures o == OutcomeOf(ParseHhea(buf, t.offset))
      ensures o.Pass? ==>
        var h := ParseHhea(buf, t.offset).value;
        ascendent == h.ascender && descendent == h.descender && numberOfHMetrics as int == h.numberOfHMetrics
    {
      pos := t.offset;
      :- ReadVersion();
      ascendent :- GetInt16();
      descendent :- GetInt16();
      Skip(26);
      var n :- GetUInt16();
      numberOfHMetrics := n as uint16;
      o := Pass;
    }

    /** Metric i of hmtx at `off`: the advance width, scaled to a 1000-unit em, and the left side
        bearing. */
    method ReadMetric(ghost off: int, ghost i: nat) returns (o: Outcome, w: int, lsb: uint16)
      requires pos == off + 4 * i
      modifies this`pos
      ensures HmtxEntry(buf, off, i, unitsPerEm as int) == if o.Pass? then Ok(GlyphRec(w, 0, lsb, 0, 0)) else Err(o.error)
      ensures o.Pass? ==> pos == old(pos) + 4
    {
      w, lsb := 0, 0;
      var advance :- GetUInt16();
      if unitsPerEm == 0 {
        return Fail(DivideByZero), 0, 0;
      }
      w := Scale(advance, unitsPerEm as int);
      var bearing :- GetUInt16();
      lsb := bearing as uint16;
      o := Pass;
    }

    /** A new glyph for metric i of hmtx at `off`. */
    method NewMetricGlyph(ghost off: int, ghost i: nat) returns (o: Outcome, g: FontGlyph?)
      requires pos == off + 4 * i
      modifies this`pos
      ensures o.Fail? ==> HmtxEntry(buf, off, i, unitsPerEm as int) == Err(o.error)
      ensures o.Pass? ==> g != null && fresh(g) && HmtxEntry(buf, off, i, unitsPerEm as int) == Ok(g.Rec())
      ensures o.Pass? ==> pos == old(pos) + 4
    {
      var w, lsb;
      o, w, lsb := ReadMetric(off, i);
      if o.Fail? {
        return o, null;
      }
      g := new FontGlyph.WithBearing(w, lsb);
    }

    /** hmtx: a new glyph table of numberOfHMetrics slots, slot i holding a new glyph with the
        scaled advance width and the left side bearing of metric i. */
    method ProcessHMTX(t: Table) returns (o: Outcome)
      modifies this`pos, this`glyphs
      ensures o == OutcomeOf(Hmtx(buf, t.offset, numberOfHMetrics as int, unitsPerEm as int))
      ensures o.Pass? ==> Snapshot(glyphs) == Present(Hmtx(buf, t.offset, numberOfHMetrics as int, unitsPerEm as int).value)
      ensures o.Pass? ==> Distinct(glyphs) && forall i :: 0 <= i < |glyphs| ==> fresh(glyphs[i])
    {
      pos := t.offset;
      var n := numberOfHMetrics as int;
      glyphs := seq(n, _ => null);
      ghost var gs: seq<GlyphRec> := [];
      var i := 0;
      while i < n
        invariant 0 <= i <= n && |glyphs| == n && pos == t.offset + 4 * i
        invariant Hmtx(buf, t.offset, i, unitsPerEm as int) == Ok(gs) && |gs| == i
        invariant forall k :: 0 <= k < i ==> glyphs[k] != null && fresh(glyphs[k]) && glyphs[k].Rec() == gs[k]
        invariant forall k :: i <= k < n ==> glyphs[k] == null
        invariant forall k, l :: 0 <= k < l < i ==> glyphs[k] != glyphs[l]
      {
        var g;
        o, g := NewMetricGlyph(t.offset, i);
        if o.Fail? {
          HmtxStops(buf, t.offset, i + 1, n, unitsPerEm as int);
          return;
        }
        glyphs := glyphs[i := g];
        gs := gs + [g.Rec()];
        i := i + 1;
      }
      assert Snapshot(glyphs) == Present(gs);
      o := Pass;
    }

    // -------------------------------------------------------------------------------------------
    // loca and glyf.

    /** The loca entries from the start of the table: length / 2 entries of 16 bits, doubled, when
        indexToLocFormat is 0, and length / 4 entries of 32 bits otherwise. */
    method ReadLoca(loca: Table) returns (o: Outcome, offs: seq<int>)
      modifies this`pos
      ensures LocaOffsets(buf, loca, indexToLocFormat) == if o.Pass? then Ok(offs) else Err(o.error)
    {
      pos := loca.offset;
      offs := [];
      if indexToLocFormat == 0 {
        var n := TruncDiv(loca.length, 2);
        if n < 0 {
          return Fail(NegativeArraySize), offs;
        }
        var i := 0;
        while i < n
          invariant 0 <= i <= n && pos == loca.offset + 2 * i && |offs| == i
          invariant i > 0 ==> Readable(buf, loca.offset, 2 * i)
          invariant forall k :: 0 <= k < i ==> offs[k] == U16At(buf, loca.offset + 2 * k) * 2
        {
          var v :- GetUInt16();
          offs := offs + [v * 2];
          i := i + 1;
        }
        assert offs == ShortOffsets(buf, loca.offset, n);
      } else {
        var n := TruncDiv(loca.length, 4);
        if n < 0 {
          return Fail(NegativeArraySize), offs;
        }
        var i := 0;
        while i < n
          invariant 0 <= i <= n && pos == loca.offset + 4 * i && |offs| == i
          invariant i > 0 ==> Readable(buf, loca.offset, 4 * i)
          invariant forall k :: 0 <= k < i ==> offs[k] == I32At(buf, loca.offset + 4 * k)
        {
          var v :- GetUInt32();
          offs := offs + [v];
          i := i + 1;
        }
        assert offs == LongOffsets(buf, loca.offset, n);
      }
      o := Pass;
    }

    /** `Glypth[i].SetFilePosition(offset, length)`: only glyph i changes. */
    method SetGlyphPosition(i: nat, offset: int, length: int)
      requires Distinct(glyphs) && i < |glyphs| && glyphs[i] != null
      modifies glyphs[i]
      ensures forall k :: 0 <= k < |glyphs| ==>
        View(glyphs[k]) == if k == i then Some(old(glyphs[i].Rec()).(offsetFile := offset, lengthFile := length)) else old(View(glyphs[k]))
    {
      glyphs[i].SetFilePosition(offset, length);
      forall k | 0 <= k < |glyphs| && k != i ensures View(glyphs[k]) == old(View(glyphs[k])) {
        assert glyphs[k] != glyphs[i];
      }
    }

    /** The position loop of glyf: glyph i, for each loca entry i but the last, starts at glyf's
        offset plus entry i and is as long as the difference to entry i + 1. */
    method LocateGlyphs(glyfOffset: int, offs: seq<int>) returns (o: Outcome)
      requires Distinct(glyphs) && |offs| - 1 <= |glyphs|
      modifies this`pos, glyphs
      ensures o == OutcomeOf(Positioned(old(Snapshot(glyphs)), offs, glyfOffset))
      ensures o.Pass? ==> Snapshot(glyphs) == Positioned(old(Snapshot(glyphs)), offs, glyfOffset).value
    {
      ghost var g := Snapshot(glyphs);
      var i := 0;
      while i < |offs| - 1
        invariant 0 <= i && (i <= |offs| - 1 || i == 0)
        invariant forall k :: 0 <= k < i ==> g[k].Some?
        invariant forall k :: 0 <= k < |glyphs| ==> View(glyphs[k]) == if k < i then Some(Located(g[k].value, glyfOffset, offs, k)) else g[k]
      {
        pos := ToInt32(glyfOffset + offs[i] + 2);
        if glyphs[i] == null {
          return Fail(NullReference);
        }
        SetGlyphPosition(i, ToInt32(glyfOffset + offs[i]), ToInt32(offs[i + 1] - offs[i]));
        Skip(8);
        i := i + 1;
      }
      assert Snapshot(glyphs) == Positioned(g, offs, glyfOffset).value;
      o := Pass;
    }

    /** glyf and loca: the loca entries; the glyph table grown to their number when it is shorter,
        with null slots; then the positions. */
    method ProcessGLYPH(glyf: Table, loca: Table) returns (o: Outcome)
      requires Distinct(glyphs)
      modifies this`pos, this`glyphs, glyphs
      ensures o == OutcomeOf(GlyphPositions(buf, glyf, loca, indexToLocFormat, old(Snapshot(glyphs))))
      ensures o.Pass? ==> Snapshot(glyphs) == GlyphPositions(buf, glyf, loca, indexToLocFormat, old(Snapshot(glyphs))).value
      ensures o.Pass? ==> Distinct(glyphs) && |old(glyphs)| <= |glyphs| && glyphs[..|old(glyphs)|] == old(glyphs)
    {
      ghost var gl := Snapshot(glyphs);
      var offs :- ReadLoca(loca);
      if |glyphs| < |offs| {
        glyphs := glyphs + seq(|offs| - |glyphs|, _ => null);
      }
      assert Snapshot(glyphs) == Grown(gl, |offs|);
      o := LocateGlyphs(glyf.offset, offs);
    }

    // -------------------------------------------------------------------------------------------
    // The table directory and the reading sequence.

    /** One table record: the tag, then checksum, offset and length, read as C# `int`s. */
    method ReadTableRecord() returns (o: Outcome, tag: string, t: Table)
      modifies this`pos
      ensures RecordAt(buf, old(pos)) == if o.Pass? then Ok((tag, t)) else Err(o.error)
      ensures o.Pass? ==> pos == old(pos) + 16
    {
      t := Table(0, 0, 0);
      tag :- GetString(4);
      var checksum :- GetUInt32();
      var offset :- GetUInt32();
      var length :- GetUInt32();
      t := Table(checksum, offset, length);
      o := Pass;
    }

    /** Record i of the directory whose records start at p, added to `tables`; a tag already
        there fails. */
    method AddTableRecord(ghost p: int, ghost t0: map<string, Table>, ghost i: nat) returns (o: Outcome)
      requires pos == p + 16 * i && Records(buf, p, i, t0) == Ok(tables)
      modifies this`pos, this`tables
      ensures Records(buf, p, i + 1, t0) == if o.Pass? then Ok(tables) else Err(o.error)
      ensures o.Pass? ==> pos == old(pos) + 16
    {
      var tag, t :- ReadTableRecord();
      if tag in tables {
        return Fail(DuplicateTable(tag));
      }
      tables := tables[tag := t];
      o := Pass;
    }

    /** The n table records from the cursor, each added to `tables`; a tag already there fails. */
    method ReadTableRecords(n: nat) returns (o: Outcome)
      modifies this`pos, this`tables
      ensures Records(buf, old(pos), n, old(tables)) == if o.Pass? then Ok(tables) else Err(o.error)
    {
      ghost var p, t0 := pos, tables;
      var i := 0;
      while i < n
        invariant 0 <= i <= n && pos == p + 16 * i
        invariant Records(buf, p, i, t0) == Ok(tables)
      {
        o := AddTableRecord(p, t0, i);
        if o.Fail? {
          RecordsStops(buf, p, i + 1, n, t0);
          return;
        }
        i := i + 1;
      }
      o := Pass;
    }

    /** The offset table: sfntVersion (TrueType or CFF outlines), numTables, searchRange,
        entrySelector and rangeShift, cross-checked; then the table records. */
    method ReadDirectory() returns (o: Outcome)
      modifies this`pos, this`tables
      ensures o == OutcomeOf(Directory(buf, old(pos), old(tables)))
      ensures o.Pass? ==> tables == Directory(buf, old(pos), old(tables)).value
    {
      var version :- GetUInt32();
      if version != SFNT_TRUETYPE && version != SFNT_OPENTYPE {
        return Fail(NotSupported(version));
      }
      var numTables :- GetUInt16();
      var searchRange :- GetUInt16();
      Skip(2);
      var rangeShift :- GetUInt16();
      if rangeShift != numTables * 16 - searchRange {
        return Fail(Malformed);
      }
      o := ReadTableRecords(numTables);
    }

    /** `dctTables[tag]`: a missing tag fails. */
    method TableOf(tag: string) returns (o: Outcome, t: Table)
      ensures Lookup(tables, tag) == if o.Pass? then Ok(t) else Err(o.error)
    {
      if tag !in tables {
        return Fail(MissingTable(tag)), Table(0, 0, 0);
      }
      o, t := Pass, tables[tag];
    }

    /** head, hhea and hmtx, in this order, from the tables of the directory. */
    method ProcessMetrics() returns (o: Outcome)
      requires boundingBox.Length == 4
      modifies this`pos, this`unitsPerEm, this`indexToLocFormat, boundingBox, this`ascendent, this`descendent,
               this`numberOfHMetrics, this`glyphs
      ensures o == OutcomeOf(LoadMetrics(buf, tables))
      ensures o.Pass? ==>
        var mt := LoadMetrics(buf, tables).value;
        && unitsPerEm as int == mt.head.unitsPerEm && boundingBox[..] == mt.head.bbox && indexToLocFormat == mt.head.indexToLocFormat
        && ascendent == mt.hhea.ascender && descendent == mt.hhea.descender && numberOfHMetrics as int == mt.hhea.numberOfHMetrics
        && Snapshot(glyphs) == Present(mt.metrics)
        && Distinct(glyphs) && forall i :: 0 <= i < |glyphs| ==> fresh(glyphs[i])
    {
      var headT :- TableOf("head");
      :- ProcessHead(headT);
      ghost var head := ParseHead(buf, headT.offset).value;
      var hheaT :- TableOf("hhea");
      :- ProcessHHEA(hheaT);
      ghost var hhea := ParseHhea(buf, hheaT.offset).value;
      var hmtxT :- TableOf("hmtx");
      :- ProcessHMTX(hmtxT);
      assert LoadMetrics(buf, tables) == Ok(Metrics(head, hhea, Hmtx(buf, hmtxT.offset, hhea.numberOfHMetrics, head.unitsPerEm).value));
      o := Pass;
    }

    /** cmap, the font's name, then glyf and loca, in this order, from the tables of the
        directory. */
    method ProcessOutlines(name: string) returns (o: Outcome)
      requires Distinct(glyphs)
      modifies this`pos, this`codes, this`fontName, this`glyphs, glyphs
      ensures o == OutcomeOf(LoadOutlines(buf, tables, indexToLocFormat, old(CM())))
      ensures o.Pass? ==> CM() == LoadOutlines(buf, tables, indexToLocFormat, old(CM())).value
      ensures o.Pass? ==> fontName == name && Distinct(glyphs)
    {
      ghost var m := CM();
      var cmapT :- TableOf("cmap");
      :- ProcessCMAP(cmapT);
      ghost var cm := Cmap(buf, cmapT.offset, m).value;
      fontName := name;
      var glyfT :- TableOf("glyf");
      var locaT :- TableOf("loca");
      ghost var gl := Snapshot(glyphs);
      assert gl == cm.glyphs;
      o := ProcessGLYPH(glyfT, locaT);
      ghost var r := GlyphPositions(buf, glyfT, locaT, indexToLocFormat, gl);
      assert LoadOutlines(buf, tables, indexToLocFormat, m) == if r.Ok? then Ok(CodeMap(cm.codes, r.value)) else Err(r.error);
    }

    /** The reading after the directory: head, hhea and hmtx, then cmap, the font's name, and
        glyf/loca. On success the object holds what `LoadTables` reads, with every code mapped
        to a present glyph. */
    method ProcessTables(name: string) returns (o: Outcome)
      requires boundingBox.Length == 4 && codes == map[]
      modifies this`pos, this`unitsPerEm, this`indexToLocFormat, boundingBox, this`ascendent,
               this`descendent, this`numberOfHMetrics, this`glyphs, this`codes, this`fontName
      ensures o == OutcomeOf(LoadTables(buf, tables, map[]))
      ensures o.Pass? ==>
        var f := LoadTables(buf, tables, map[]).value;
        && codes == f.codes && Snapshot(glyphs) == f.glyphs
        && unitsPerEm as int == f.head.unitsPerEm && boundingBox[..] == f.head.bbox && indexToLocFormat == f.head.indexToLocFormat
        && ascendent == f.hhea.ascender && descendent == f.hhea.descender && numberOfHMetrics as int == f.hhea.numberOfHMetrics
        && fontName == name && Distinct(glyphs) && TargetsValid(CM())
    {
      o := ProcessMetrics();
      if o.Fail? {
        return;
      }
      ghost var mt := LoadMetrics(buf, tables).value;
      assert CM() == CodeMap(map[], Present(mt.metrics));
      o := ProcessOutlines(name);
      if o.Pass? {
        ghost var f := Font(tables, mt.head, mt.hhea, codes, Snapshot(glyphs));
        assert LoadTables(buf, tables, map[]) == Ok(f);
        LoadedGlyphs(buf, tables, f);
      }
    }

    /** `Process`: the table directory, then the tables. On success the object holds what `Load`
        reads, and the reading established `Valid`. */
    method Process(name: string) returns (o: Outcome)
      requires Valid() && codes == map[]
      modifies this`pos, this`tables, this`unitsPerEm, this`indexToLocFormat, boundingBox, this`ascendent,
               this`descendent, this`numberOfHMetrics, this`glyphs, this`codes, this`fontName
      ensures o == OutcomeOf(Load(buf, old(pos), old(tables), map[]))
      ensures o.Pass? ==>
        var f := Load(buf, old(pos), old(tables), map[]).value;
        && tables == f.tables && codes == f.codes && Snapshot(glyphs) == f.glyphs
        && unitsPerEm as int == f.head.unitsPerEm && boundingBox[..] == f.head.bbox && indexToLocFormat == f.head.indexToLocFormat
        && ascendent == f.hhea.ascender && descendent == f.hhea.descender && numberOfHMetrics as int == f.hhea.numberOfHMetrics
        && fontName == name && Valid()
    {
      o := ReadDirectory();
      if o.Fail? {
        return;
      }
      o := ProcessTables(name);
    }

    // -------------------------------------------------------------------------------------------
    // Lookups.

    /** `GetGlyphId`: the glyph a character code maps to; an unmapped code throws. */
    function GetGlyphId(ch: int): (r: Result<int>)
      reads this
      ensures r.Ok? <==> ch in codes
      ensures r.Err? ==> r.error == KeyNotFound(ch)
    {
      if ch in codes then Ok(codes[ch]) else Err(KeyNotFound(ch))
    }

    /** `GetGlyph`: the glyph slot at an index, which may be null; an index outside the table
        throws. */
    function GetGlyph(id: int): (r: Result<FontGlyph?>)
      reads this
      ensures r.Ok? <==> 0 <= id < |glyphs|
      ensures r.Err? ==> r.error == OutOfBounds
    {
      if 0 <= id < |glyphs| then Ok(glyphs[id]) else Err(OutOfBounds)
    }

    /** On a valid font the two lookups compose: a mapped code reaches a glyph object, whose
        value is the one the code map records, and an unmapped code fails at the first. */
    lemma MappedGlyph(ch: int)
      requires Valid()
      ensures ch in codes ==>
        && GetGlyph(GetGlyphId(ch).value).Ok?
        && var g := GetGlyph(GetGlyphId(ch).value).value;
           g != null && CM().glyphs[codes[ch]] == Some(g.Rec())
      ensures ch !in codes ==> GetGlyphId(ch) == Err(KeyNotFound(ch))
    {
      if ch in codes {
        assert ValidTarget(CM().glyphs, codes[ch]);
      }
    }

    // -------------------------------------------------------------------------------------------
    // The characters written with the font.

    /** `AddNewChar`: c joins hashChar and widens FirstChar .. LastChar to include it. */
    method AddNewChar(c: char16)
      modifies this`firstChar, this`lastChar, this`hashChar
      ensures UsedState() == AddChar(old(UsedState()), c)
    {
      hashChar := hashChar + {c as int};
      if firstChar.None? || (c as int) < firstChar.value {
        firstChar := Some(c as int);
      }
      if c as int > lastChar {
        lastChar := c as int;
      }
    }

    /** `SetText`: each character of the text, from left to right, is added. */
    method SetText(text: seq<char16>)
      requires Valid()
      modifies this`firstChar, this`lastChar, this`hashChar
      ensures UsedState() == Text(old(UsedState()), text)
      ensures Valid()
    {
      var i := 0;
      while i < |text|
        invariant 0 <= i <= |text|
        invariant UsedState() == Text(old(UsedState()), text[..i])
      {
        assert text[..i + 1][..i] == text[..i];
        AddNewChar(text[i]);
        i := i + 1;
      }
      assert text[..i] == text;
      TextChars(old(UsedState()), text);
    }

    // -------------------------------------------------------------------------------------------
    // The width of a text.

    /** The integer part of `GetWidthPointKerned`: `currentSize + kerning`, the sum of the widths
        of the glyphs of the mapped characters and of the kerning of each listed pair. */
    method GetWidthPointKerned(text: seq<char16>) returns (units: int)
      requires Valid()
      ensures units == KernedWidth(CM(), kerning, text)
    {
      var currentSize, kern, previousChar := 0, 0, -1;
      var i := 0;
      while i < |text|
        invariant 0 <= i <= |text|
        invariant currentSize == Advances(CM(), text[..i]) && kern == Kerns(kerning, text[..i])
        invariant previousChar == if i == 0 then -1 else text[i - 1] as int
      {
        var ch := text[i];
        assert text[..i + 1][..i] == text[..i];
        if ch as int in codes {
          assert ValidTarget(CM().glyphs, codes[ch as int]);
          currentSize := currentSize + glyphs[codes[ch as int]].width;
        }
        if previousChar >= 0 {
          var key := PairKey(previousChar as char16, ch);
          if key in kerning {
            kern := kern + kerning[key];
          }
        }
        previousChar := ch as int;
        i := i + 1;
      }
      assert text[..i] == text;
      units := currentSize + kern;
    }

    // -------------------------------------------------------------------------------------------
    // The font dictionary.

    /** The width written for code c after FirstChar. */
    method WidthOf(c: int) returns (w: int)
      requires TargetsValid(CM())
      ensures w == WidthEntry(CM(), hashChar, width, c)
    {
      if c !in hashChar {
        w := 0;
      } else if c !in codes {
        w := width;
      } else {
        assert ValidTarget(CM().glyphs, codes[c]);
        w := glyphs[codes[c]].width;
      }
    }

    /** One more entry of the /Widths array: a space and the width w for code c. */
    method AppendWidth(ghost done: seq<int>, c: int, sb: string) returns (w: int, sb': string)
      requires TargetsValid(CM()) && done != [] && sb == Joined(done)
      ensures w == WidthEntry(CM(), hashChar, width, c) && sb' == Joined(done + [w])
    {
      w := WidthOf(c);
      JoinedSnoc(done, w);
      sb' := sb + " " + IntToString(w);
    }

    /** The /Widths array: the width of FirstChar's glyph, then one entry per code up to
        LastChar, each preceded by a space. */
    method WriteWidths() returns (o: Outcome, sb: string)
      requires Valid()
      ensures OutcomeOf(Widths(CM(), UsedState(), width)) == o
      ensures o.Pass? ==> sb == Joined(Widths(CM(), UsedState(), width).value)
    {
      sb := "";
      if firstChar.None? {
        return Pass, sb;
      }
      var first := firstChar.value;
      if first !in codes {
        return Fail(KeyNotFound(first)), sb;
      }
      ghost var ws := Widths(CM(), UsedState(), width).value;
      var w0 := WidthOf(first);
      WidthsFirst(CM(), UsedState(), width, ws);
      WidthsEntries(CM(), UsedState(), width);
      sb := JoinWidths(ws, first, w0);
      o := Pass;
    }

    /** The loop of `Write` over the codes after FirstChar. */
    method JoinWidths(ghost ws: seq<int>, first: int, w0: int) returns (sb: string)
      requires TargetsValid(CM()) && |ws| == lastChar - first + 1 && ws != [] && ws[0] == w0
      requires forall k :: 0 < k < |ws| ==> ws[k] == WidthEntry(CM(), hashChar, width, first + k)
      ensures sb == Joined(ws)
    {
      sb := IntToString(w0);
      ghost var done := [w0];
      var c := first + 1;
      while c < lastChar + 1
        invariant first + 1 <= c <= lastChar + 1
        invariant done == ws[..c - first] && sb == Joined(done)
      {
        var w;
        w, sb := AppendWidth(done, c, sb);
        assert ws[..c - first + 1] == done + [w];
        done := done + [w];
        c := c + 1;
      }
      assert done == ws;
    }

    /** `Write`: the PDF font dictionary, with `descriptorId` for the object number of the font
        descriptor. */
    method Write(descriptorId: int) returns (o: Outcome, s: string)
      requires Valid()
      ensures FontDict(CM(), UsedState(), width, descriptorId, fontName) == if o.Pass? then Ok(s) else Err(o.error)
    {
      var sb;
      o, sb := WriteWidths();
      if o.Fail? {
        return o, "";
      }
      s := "<</Encoding/WinAnsiEncoding/Type/Font/Subtype/TrueType/Widths [" + sb +
           "]/FirstChar " + (if firstChar.Some? then IntToString(firstChar.value) else "") +
           "/LastChar " + IntToString(lastChar) +
           "/FontDescriptor " + IntToString(descriptorId) + " 0 R/BaseFont/" + fontName + ">>";
    }
  }
}
