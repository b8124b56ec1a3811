/**
  The cmap table reader. Every subtable decoder is described by the sequence of loop iterations it
  performs (its steps): an iteration either adds one code-to-glyph entry and marks the glyph with
  that code, or fails at that point (a read past the end, a bad glyphIdArray index). `Run` performs
  such a sequence on the dictionary and the glyph table, stopping at the first failure as the
  reader's exceptions do.
*/
module CharMap {
  import opened Bytes
  import opened Errors
  import opened Glyphs

  /** dctCharCodeToGlyphID together with the values of the glyph table it annotates. */
  datatype CodeMap = CodeMap(codes: map<int, int>, glyphs: seq<Option<GlyphRec>>)

  /** One iteration of a decoder loop. */
  datatype Step = Map(code: int, glyph: int) | Stop(error: FontError)

  /** `Glypth[g]` is an index into the table and holds an object. */
  predicate ValidTarget(gl: seq<Option<GlyphRec>>, g: int) {
    0 <= g < |gl| && gl[g].Some?
  }

  /** Every entry of the dictionary names an existing glyph. */
  ghost predicate TargetsValid(m: CodeMap) {
    forall c :: c in m.codes ==> ValidTarget(m.glyphs, m.codes[c])
  }

  /** `dctCharCodeToGlyphID.Add(code, glyph)` followed by `Glypth[glyph].unicode = code`. */
  function Assign(m: CodeMap, code: int, glyph: int): (r: Result<CodeMap>)
    ensures r.Ok? <==> code !in m.codes && ValidTarget(m.glyphs, glyph)
    ensures r.Err? && code in m.codes ==> r.error == DuplicateCode(code)
    ensures r.Ok? ==> r.value.codes == m.codes[code := glyph] && |r.value.glyphs| == |m.glyphs|
    ensures r.Ok? ==> r.value.glyphs[glyph] == Some(m.glyphs[glyph].value.(unicode := code))
    ensures r.Ok? ==> forall g :: 0 <= g < |m.glyphs| && g != glyph ==> r.value.glyphs[g] == m.glyphs[g]
  {
    if code in m.codes then Err(DuplicateCode(code))
    else if !(0 <= glyph < |m.glyphs|) then Err(OutOfBounds)
    else if m.glyphs[glyph].None? then Err(NullReference)
    else Ok(CodeMap(m.codes[code := glyph], m.glyphs[glyph := Some(m.glyphs[glyph].value.(unicode := code))]))
  }

  function Apply(m: CodeMap, s: Step): Result<CodeMap> {
    match s
    case Map(c, g) => Assign(m, c, g)
    case Stop(e) => Err(e)
  }

  function Run(steps: seq<Step>, m: CodeMap): Result<CodeMap>
    decreases |steps|
  {
    if steps == [] then Ok(m)
    else match Apply(m, steps[0])
      case Err(e) => Err(e)
      case Ok(m') => Run(steps[1..], m')
  }

  // ---------------------------------------------------------------------------------------------
  // What a run does, independently of the decoder that produced the steps.

  /** Every step is an entry whose code is new and whose glyph slot exists. */
  ghost predicate Admissible(steps: seq<Step>, m: CodeMap) {
    && (forall i :: 0 <= i < |steps| ==> steps[i].Map?)
    && (forall i :: 0 <= i < |steps| && steps[i].Map? ==> steps[i].code !in m.codes && ValidTarget(m.glyphs, steps[i].glyph))
    && (forall i, j :: 0 <= i < j < |steps| && steps[i].Map? && steps[j].Map? ==> steps[i].code != steps[j].code)
  }

  /** The codes the steps add. */
  ghost function KeysOf(steps: seq<Step>): set<int>
    decreases |steps|
  {
    if steps == [] then {}
    else (if steps[0].Map? then {steps[0].code} else {}) + KeysOf(steps[1..])
  }

  /** The code of the last entry that targets glyph `g`: the `unicode` the glyph ends up with. */
  function LastCode(steps: seq<Step>, g: int): Option<int>
    decreases |steps|
  {
    if steps == [] then None
    else
      var later := LastCode(steps[1..], g);
      if later.Some? then later
      else if steps[0].Map? && steps[0].glyph == g then Some(steps[0].code)
      else None
  }

  function Annotated(v: Option<GlyphRec>, code: Option<int>): Option<GlyphRec> {
    if v.Some? && code.Some? then Some(v.value.(unicode := code.value)) else v
  }

  /** A run succeeds exactly when every step adds a fresh code for an existing glyph. */
  lemma {:induction false} RunSucceedsIff(steps: seq<Step>, m: CodeMap)
    ensures Run(steps, m).Ok? <==> Admissible(steps, m)
    decreases |steps|
  {
    if steps != [] {
      var rest := steps[1..];
      assert forall i :: 0 <= i < |rest| ==> rest[i] == steps[i + 1];
      match Apply(m, steps[0])
      case Err(e) =>
        if steps[0].Map? {
          assert !(steps[0].code !in m.codes && ValidTarget(m.glyphs, steps[0].glyph));
        }
      case Ok(m') =>
        RunSucceedsIff(rest, m');
        var c0 := steps[0].code;
        assert forall g :: ValidTarget(m'.glyphs, g) <==> ValidTarget(m.glyphs, g);
        assert m'.codes.Keys == m.codes.Keys + {c0};
        if Admissible(rest, m') {
          forall i, j | 0 <= i < j < |steps| && steps[i].Map? && steps[j].Map?
            ensures steps[i].code != steps[j].code
          {
            if i > 0 { assert rest[i - 1] == steps[i] && rest[j - 1] == steps[j]; }
            else { assert rest[j - 1] == steps[j]; }
          }
        }
        if Admissible(steps, m) {
          forall i | 0 <= i < |rest| && rest[i].Map?
            ensures rest[i].code !in m'.codes
          {
            assert steps[0].code != steps[i + 1].code;
          }
        }
    }
  }

  /** A successful run adds exactly the codes of its entries and keeps the earlier entries. */
  lemma {:induction false} RunKeys(steps: seq<Step>, m: CodeMap, m': CodeMap)
    requires Run(steps, m) == Ok(m')
    ensures m'.codes.Keys == m.codes.Keys + KeysOf(steps)
    ensures forall c :: c in m.codes ==> m'.codes[c] == m.codes[c]
    decreases |steps|
  {
    if steps != [] {
      RunKeys(steps[1..], Apply(m, steps[0]).value, m');
    }
  }

  /** In a successful run, every step is an entry and its code ends up mapped to its glyph. */
  lemma {:induction false} RunEntry(steps: seq<Step>, m: CodeMap, m': CodeMap, s: Step)
    requires Run(steps, m) == Ok(m') && s in steps
    ensures s.Map? && s.code in m'.codes && m'.codes[s.code] == s.glyph
    ensures ValidTarget(m.glyphs, s.glyph)
    decreases |steps|
  {
    var m1 := Apply(m, steps[0]).value;
    if s == steps[0] {
      RunKeys(steps[1..], m1, m');
    } else {
      assert s in steps[1..];
      RunEntry(steps[1..], m1, m', s);
      assert ValidTarget(m1.glyphs, s.glyph);
    }
  }

  /** A successful run keeps the size of the glyph table and leaves each glyph annotated with the
      last code that targeted it (or untouched). */
  lemma {:induction false} RunGlyphs(steps: seq<Step>, m: CodeMap, m': CodeMap)
    requires Run(steps, m) == Ok(m')
    ensures |m'.glyphs| == |m.glyphs|
    ensures forall g :: 0 <= g < |m.glyphs| ==> m'.glyphs[g] == Annotated(m.glyphs[g], LastCode(steps, g))
    decreases |steps|
  {
    if steps != [] {
      RunGlyphs(steps[1..], Apply(m, steps[0]).value, m');
    }
  }

  /** A run keeps every dictionary entry pointing at an existing glyph. */
  lemma {:induction false} RunKeepsTargetsValid(steps: seq<Step>, m: CodeMap)
    requires TargetsValid(m) && Run(steps, m).Ok?
    ensures TargetsValid(Run(steps, m).value)
    decreases |steps|
  {
    if steps != [] {
      var m1 := Apply(m, steps[0]).value;
      assert forall g :: ValidTarget(m1.glyphs, g) <==> ValidTarget(m.glyphs, g);
      RunKeepsTargetsValid(steps[1..], m1);
    }
  }

  lemma {:induction false} RunConcat(a: seq<Step>, b: seq<Step>, m: CodeMap)
    ensures Run(a + b, m) == match Run(a, m) { case Err(e) => Err(e) case Ok(m1) => Run(b, m1) }
    decreases |a|
  {
    if a == [] {
      assert a + b == b;
    } else {
      assert (a + b)[0] == a[0] && (a + b)[1..] == a[1..] + b;
      match Apply(m, a[0])
      case Err(_) =>
      case Ok(m1) => RunConcat(a[1..], b, m1);
    }
  }

  /** One more iteration: what a decoder loop does at each turn. */
  lemma RunSnoc(a: seq<Step>, s: Step, m: CodeMap)
    ensures Run(a + [s], m) == match Run(a, m) { case Err(e) => Err(e) case Ok(m1) => Apply(m1, s) }
  {
    RunConcat(a, [s], m);
    match Run(a, m)
    case Err(_) =>
    case Ok(m1) =>
      assert Run([s], m1) == match Apply(m1, s) { case Err(e) => Err(e) case Ok(m2) => Run([], m2) };
  }

  /** Once some step fails, nothing after it matters. */
  lemma RunStopsAtFailure(a: seq<Step>, b: seq<Step>, m: CodeMap)
    requires Run(a, m).Err?
    ensures Run(a + b, m) == Run(a, m)
  {
    RunConcat(a, b, m);
  }

  /** The iterations of a nested loop: the inner iterations of each outer turn, in order. */
  function Flatten(parts: seq<seq<Step>>): seq<Step>
    decreases |parts|
  {
    if parts == [] then [] else Flatten(parts[..|parts| - 1]) + parts[|parts| - 1]
  }

  lemma {:induction false} FlattenContains(parts: seq<seq<Step>>, i: nat, s: Step)
    requires i < |parts| && s in parts[i]
    ensures s in Flatten(parts)
    decreases |parts|
  {
    var init := parts[..|parts| - 1];
    if i < |parts| - 1 {
      assert init[i] == parts[i];
      FlattenContains(init, i, s);
    }
  }

  /** One more outer turn of a nested loop. */
  lemma FlattenSnoc(parts: seq<seq<Step>>, i: nat)
    requires i < |parts|
    ensures Flatten(parts[..i + 1]) == Flatten(parts[..i]) + parts[i]
  {
    assert parts[..i + 1][..i] == parts[..i];
  }

  lemma {:induction false} FlattenConcat(a: seq<seq<Step>>, b: seq<seq<Step>>)
    ensures Flatten(a + b) == Flatten(a) + Flatten(b)
    decreases |b|
  {
    if b == [] {
      assert a + b == a;
    } else {
      var b' := b[..|b| - 1];
      assert (a + b)[..|a + b| - 1] == a + b';
      assert (a + b)[|a + b| - 1] == b[|b| - 1];
      FlattenConcat(a, b');
    }
  }

  /** Turn k of a decoder loop: the run of the first k + 1 steps is the run of the first k
      followed by step k, and once it fails the whole run fails the same way. */
  lemma RunStep(steps: seq<Step>, k: nat, m: CodeMap)
    requires k < |steps|
    ensures Run(steps[..k + 1], m) == match Run(steps[..k], m) { case Err(e) => Err(e) case Ok(m1) => Apply(m1, steps[k]) }
    ensures Run(steps[..k + 1], m).Err? ==> Run(steps, m) == Run(steps[..k + 1], m)
  {
    assert steps[..k + 1] == steps[..k] + [steps[k]];
    RunSnoc(steps[..k], steps[k], m);
    assert steps == steps[..k + 1] + steps[k + 1..];
    if Run(steps[..k + 1], m).Err? {
      RunStopsAtFailure(steps[..k + 1], steps[k + 1..], m);
    }
  }

  /** A turn that stops ends the whole run with its error. */
  lemma StopStep(steps: seq<Step>, k: nat, m: CodeMap, mk: CodeMap)
    requires k < |steps| && steps[k].Stop? && Run(steps[..k], m) == Ok(mk)
    ensures Run(steps, m) == Err(steps[k].error)
  {
    RunStep(steps, k, m);
  }

  /** A nested decoder loop run part by part: the outer loop's view of the same iterations. */
  function RunParts(parts: seq<seq<Step>>, m: CodeMap): Result<CodeMap>
    decreases |parts|
  {
    if parts == [] then Ok(m)
    else
      var m1 :- RunParts(parts[..|parts| - 1], m);
      Run(parts[|parts| - 1], m1)
  }

  /** Running the parts one after the other is running their concatenation. */
  lemma {:induction false} RunPartsFlatten(parts: seq<seq<Step>>, m: CodeMap)
    ensures RunParts(parts, m) == Run(Flatten(parts), m)
    decreases |parts|
  {
    if parts != [] {
      var init := parts[..|parts| - 1];
      RunPartsFlatten(init, m);
      RunConcat(Flatten(init), parts[|parts| - 1], m);
    }
  }

  /** Outer turn i of a nested decoder loop: part i runs from the state the earlier parts left;
      when it fails, the whole loop fails the same way. */
  lemma {:induction false} RunPartStep(parts: seq<seq<Step>>, i: nat, m: CodeMap, mi: CodeMap)
    requires i < |parts| && RunParts(parts[..i], m) == Ok(mi)
    ensures RunParts(parts[..i + 1], m) == Run(parts[i], mi)
    ensures Run(parts[i], mi).Err? ==> RunParts(parts, m) == Run(parts[i], mi)
    decreases |parts|
  {
    assert parts[..i + 1][..i] == parts[..i];
    if Run(parts[i], mi).Err? && i + 1 < |parts| {
      var init := parts[..|parts| - 1];
      assert init[..i] == parts[..i] && init[i] == parts[i];
      RunPartStep(init, i, m, mi);
    } else if i + 1 == |parts| {
      assert parts[..i + 1] == parts;
    }
  }

  lemma {:induction false} KeysOfBounds(steps: seq<Step>, lo: int, hi: int)
    requires forall i :: 0 <= i < |steps| && steps[i].Map? ==> lo <= steps[i].code < hi
    ensures forall c :: c in KeysOf(steps) ==> lo <= c < hi
    decreases |steps|
  {
    if steps != [] {
      assert forall i :: 0 <= i < |steps[1..]| ==> steps[1..][i] == steps[i + 1];
      KeysOfBounds(steps[1..], lo, hi);
    }
  }

  /** Every code the steps add is the code of one of them. */
  lemma {:induction false} KeysOfMember(steps: seq<Step>, c: int)
    requires c in KeysOf(steps)
    ensures exists i :: 0 <= i < |steps| && steps[i].Map? && steps[i].code == c
    decreases |steps|
  {
    if !(steps[0].Map? && steps[0].code == c) {
      KeysOfMember(steps[1..], c);
      var i :| 0 <= i < |steps[1..]| && steps[1..][i].Map? && steps[1..][i].code == c;
      assert steps[i + 1] == steps[1..][i];
    }
  }

  /** Every iteration of a nested loop belongs to one of its outer turns. */
  lemma {:induction false} FlattenMember(parts: seq<seq<Step>>, s: Step)
    requires s in Flatten(parts)
    ensures exists k :: 0 <= k < |parts| && s in parts[k]
    decreases |parts|
  {
    var init := parts[..|parts| - 1];
    if s !in parts[|parts| - 1] {
      FlattenMember(init, s);
      var k :| 0 <= k < |init| && s in init[k];
      assert init[k] == parts[k];
    }
  }

  /** A code a nested loop adds is the code of inner iteration z of some outer turn k. */
  lemma FlattenKey(parts: seq<seq<Step>>, c: int)
    requires c in KeysOf(Flatten(parts))
    ensures exists k, z :: 0 <= k < |parts| && 0 <= z < |parts[k]| && parts[k][z].Map? && parts[k][z].code == c
  {
    var steps := Flatten(parts);
    KeysOfMember(steps, c);
    var i :| 0 <= i < |steps| && steps[i].Map? && steps[i].code == c;
    FlattenMember(parts, steps[i]);
    var k :| 0 <= k < |parts| && steps[i] in parts[k];
    var z :| 0 <= z < |parts[k]| && parts[k][z] == steps[i];
  }

  // ---------------------------------------------------------------------------------------------
  // Format 0: a byte per code 0..255.

  /** Iteration i reads the byte at p + i and maps code i to it. */
  function Format0Step(buf: seq<uint8>, p: int, i: int): Step {
    if Readable(buf, p + i, 1) then Map(i, U8At(buf, p + i)) else Stop(OutOfBounds)
  }

  function Format0Steps(buf: seq<uint8>, p: int): (steps: seq<Step>)
    ensures |steps| == 256
    ensures forall i :: 0 <= i < 256 ==> steps[i] == Format0Step(buf, p, i)
  {
    seq(256, i => Format0Step(buf, p, i))
  }

  /** Format 0 succeeds exactly when all 256 bytes are inside the buffer, name existing glyphs and
      no code 0..255 is already mapped. */
  lemma Format0SucceedsIff(buf: seq<uint8>, p: int, m: CodeMap)
    ensures Run(Format0Steps(buf, p), m).Ok? <==>
      && Readable(buf, p, 256)
      && (forall i :: 0 <= i < 256 ==> i !in m.codes)
      && (forall i :: p <= i < p + 256 ==> ValidTarget(m.glyphs, buf[i] as int))
  {
    var steps := Format0Steps(buf, p);
    RunSucceedsIff(steps, m);
    if Admissible(steps, m) {
      assert steps[0].Map? && steps[255].Map?;
      assert Readable(buf, p, 256);
      forall i | 0 <= i < 256 ensures i !in m.codes && ValidTarget(m.glyphs, buf[p + i] as int) {
        assert steps[i].Map? && steps[i] == Format0Step(buf, p, i);
      }
      forall i | p <= i < p + 256 ensures ValidTarget(m.glyphs, buf[i] as int) {
        var k := i - p;
        assert steps[k].Map? && steps[k] == Format0Step(buf, p, k);
        assert p + k == i;
      }
    } else if && Readable(buf, p, 256)
              && (forall i :: 0 <= i < 256 ==> i !in m.codes)
              && (forall i :: p <= i < p + 256 ==> ValidTarget(m.glyphs, buf[i] as int)) {
      forall i | 0 <= i < 256 ensures steps[i] == Map(i, buf[p + i] as int) {
        assert steps[i] == Format0Step(buf, p, i);
      }
      forall i | 0 <= i < |steps| ensures steps[i].Map? && steps[i].code !in m.codes && ValidTarget(m.glyphs, steps[i].glyph) {
        assert steps[i] == Map(i, buf[p + i] as int);
      }
      assert false;
    }
  }

  /** A successful format 0 decoding maps code i to byte i, for exactly the codes 0..255. */
  lemma Format0Codes(buf: seq<uint8>, p: int, m: CodeMap, m': CodeMap)
    requires Run(Format0Steps(buf, p), m) == Ok(m')
    ensures Readable(buf, p, 256)
    ensures forall i :: 0 <= i < 256 ==> i in m'.codes && m'.codes[i] == U8At(buf, p + i)
    ensures forall c :: c in m'.codes ==> 0 <= c < 256 || c in m.codes
  {
    var steps := Format0Steps(buf, p);
    Format0SucceedsIff(buf, p, m);
    RunKeys(steps, m, m');
    forall i | 0 <= i < 256 ensures i in m'.codes && m'.codes[i] == U8At(buf, p + i) {
      RunEntry(steps, m, m', steps[i]);
    }
    KeysOfBounds(steps, 0, 256);
  }

  // ---------------------------------------------------------------------------------------------
  // Format 6: `count` consecutive codes from `first`.

  function Format6Step(buf: seq<uint8>, p: int, first: int, k: int): Step {
    if Readable(buf, p + 2 * k, 2) then Map(first + k, U16At(buf, p + 2 * k)) else Stop(OutOfBounds)
  }

  function Format6Steps(buf: seq<uint8>, p: int, first: int, count: nat): (steps: seq<Step>)
    ensures |steps| == count
    ensures forall k :: 0 <= k < count ==> steps[k] == Format6Step(buf, p, first, k)
  {
    seq(count, k => Format6Step(buf, p, first, k))
  }

  /** The decoder of a format 6 subtable whose fields start at q: firstCode and entryCount
      after the skipped length and language fields, then the glyph ids. */
  function Format6(buf: seq<uint8>, q: int, m: CodeMap): Result<CodeMap> {
    if !Readable(buf, q + 4, 2) || !Readable(buf, q + 6, 2) then Err(OutOfBounds)
    else Run(Format6Steps(buf, q + 8, U16At(buf, q + 4), U16At(buf, q + 6)), m)
  }

  /** Entry k of a successful format 6 run was read and maps first + k to its value. */
  lemma Format6Entry(buf: seq<uint8>, p: int, first: int, count: nat, m: CodeMap, m': CodeMap, k: nat)
    requires Run(Format6Steps(buf, p, first, count), m) == Ok(m') && k < count
    ensures Readable(buf, p + 2 * k, 2) && first + k in m'.codes && m'.codes[first + k] == U16At(buf, p + 2 * k)
  {
    var steps := Format6Steps(buf, p, first, count);
    assert steps[k] == Format6Step(buf, p, first, k);
    RunEntry(steps, m, m', steps[k]);
  }

  /** A successful format 6 run adds only the codes first .. first + count - 1. */
  lemma Format6Keys(buf: seq<uint8>, p: int, first: int, count: nat, m: CodeMap, m': CodeMap)
    requires Run(Format6Steps(buf, p, first, count), m) == Ok(m')
    ensures forall c :: c in m'.codes ==> first <= c < first + count || c in m.codes
  {
    var steps := Format6Steps(buf, p, first, count);
    RunKeys(steps, m, m');
    forall k | 0 <= k < |steps| && steps[k].Map? ensures first <= steps[k].code < first + count {
      assert steps[k] == Format6Step(buf, p, first, k);
    }
    KeysOfBounds(steps, first, first + count);
  }

  /** A successful format 6 run read all count entries and maps first + k to entry k. */
  lemma Format6Mapped(buf: seq<uint8>, p: int, first: int, count: nat, m: CodeMap, m': CodeMap)
    requires Run(Format6Steps(buf, p, first, count), m) == Ok(m')
    ensures ReadableRun(buf, p, 2, count)
    ensures forall c :: first <= c < first + count ==> c in m'.codes && m'.codes[c] == U16At(buf, p + 2 * (c - first))
  {
    if count > 0 {
      Format6Entry(buf, p, first, count, m, m', 0);
      Format6Entry(buf, p, first, count, m, m', count - 1);
    }
    forall c | first <= c < first + count ensures c in m'.codes && m'.codes[c] == U16At(buf, p + 2 * (c - first)) {
      Format6Entry(buf, p, first, count, m, m', c - first);
    }
  }

  /** A successful format 6 decoding maps firstCode + k to the k-th entry and adds no other code. */
  lemma Format6Codes(buf: seq<uint8>, q: int, m: CodeMap, m': CodeMap)
    requires Format6(buf, q, m) == Ok(m')
    ensures Readable(buf, q + 4, 4)
    ensures var first, count := U16At(buf, q + 4), U16At(buf, q + 6);
      && ReadableRun(buf, q + 8, 2, count)
      && (forall c :: first <= c < first + count ==> c in m'.codes && m'.codes[c] == U16At(buf, q + 8 + 2 * (c - first)))
      && (forall c :: c in m'.codes ==> first <= c < first + count || c in m.codes)
  {
    var first, count := U16At(buf, q + 4), U16At(buf, q + 6);
    Format6Mapped(buf, q + 8, first, count, m, m');
    Format6Keys(buf, q + 8, first, count, m, m');
  }

  // ---------------------------------------------------------------------------------------------
  // Format 4: segments [startCount, endCount] with a delta or an offset into glyphIdArray.

  /** The parallel arrays of a format 4 subtable, as read. */
  datatype Segments = Segments(segCount: nat, endCount: seq<int>, startCount: seq<int>,
                               idDelta: seq<int>, idRangeOffset: seq<int>, glyphIdArray: seq<int>)
  {
    predicate Sized() {
      |endCount| == segCount && |startCount| == segCount && |idDelta| == segCount && |idRangeOffset| == segCount
    }
  }

  /** The length of glyphIdArray as the reader computes it: by C# precedence,
      `(length >> 1) - 8 - segCount << 2` is `((length >> 1) - 8 - segCount) << 2`. */
  function GlyphIdCount(length: int, segCount: int): int
    requires length >= 0
  {
    (length / 2 - 8 - segCount) * 4
  }

  /** Reads the header of a format 4 subtable whose fields start at q (just after the format
      number): length, language, segCountX2, searchRange, entrySelector and rangeShift, with
      the rangeShift cross-check. Gives the length and segCount. */
  function Format4Header(buf: seq<uint8>, q: int): Result<(int, nat)> {
    if !Readable(buf, q, 6) || !Readable(buf, q + 6, 2) || !Readable(buf, q + 10, 2) then Err(OutOfBounds)
    else
      var length, sc := U16At(buf, q), U16At(buf, q + 4) / 2;
      var searchRange, rangeShift := U16At(buf, q + 6), U16At(buf, q + 10);
      if rangeShift != 2 * sc - searchRange then Err(Malformed)
      else Ok((length, sc))
  }

  /** Reads the header and then the arrays: endCount, reservedPad, startCount, idDelta,
      idRangeOffset, glyphIdArray. */
  function Format4Arrays(buf: seq<uint8>, q: int): (r: Result<Segments>)
    ensures r.Ok? ==> r.value.Sized()
  {
    var (length, sc) :- Format4Header(buf, q);
    if !ReadableRun(buf, q + 12, 2, sc) then Err(OutOfBounds)
    else if !ReadableRun(buf, q + 14 + 2 * sc, 2, sc) then Err(OutOfBounds)
    else if !ReadableRun(buf, q + 14 + 4 * sc, 2, sc) then Err(OutOfBounds)
    else if !ReadableRun(buf, q + 14 + 6 * sc, 2, sc) then Err(OutOfBounds)
    else
      var n := GlyphIdCount(length, sc);
      if n < 0 then Err(NegativeArraySize)
      else if !ReadableRun(buf, q + 14 + 8 * sc, 2, n) then Err(OutOfBounds)
      else Ok(Segments(sc, U16s(buf, q + 12, sc), U16s(buf, q + 14 + 2 * sc, sc), U16s(buf, q + 14 + 4 * sc, sc),
                       U16s(buf, q + 14 + 6 * sc, sc), U16s(buf, q + 14 + 8 * sc, n)))
  }

  /** The glyph for code c of segment s: idDelta + c (with no reduction modulo 65536), or the
      glyphIdArray entry the range offset selects (with no idDelta added). */
  function Format4Step(a: Segments, s: int, c: int): Step
    requires a.Sized() && 0 <= s < a.segCount
  {
    if a.idRangeOffset[s] == 0 then Map(c, a.idDelta[s] + c)
    else
      var j := c - a.startCount[s] + s + a.idRangeOffset[s] / 2 - a.segCount;
      if 0 <= j < |a.glyphIdArray| then Map(c, a.glyphIdArray[j]) else Stop(OutOfBounds)
  }

  function SegmentLength(a: Segments, s: int): nat
    requires a.Sized() && 0 <= s < a.segCount
  {
    if a.startCount[s] <= a.endCount[s] then a.endCount[s] - a.startCount[s] + 1 else 0
  }

  /** The iterations of the inner loop for segment s: codes startCount[s] .. endCount[s]. */
  function SegmentSteps(a: Segments, s: int): (steps: seq<Step>)
    requires a.Sized() && 0 <= s < a.segCount
    ensures |steps| == SegmentLength(a, s)
  {
    seq(SegmentLength(a, s), k requires 0 <= k < SegmentLength(a, s) => Format4Step(a, s, a.startCount[s] + k))
  }

  /** The inner iterations of every segment, in segment order. */
  function SegmentParts(a: Segments): (parts: seq<seq<Step>>)
    requires a.Sized()
    ensures |parts| == a.segCount
    ensures forall s :: 0 <= s < a.segCount ==> parts[s] == SegmentSteps(a, s)
  {
    seq(a.segCount, s requires 0 <= s < a.segCount => SegmentSteps(a, s))
  }

  function Format4(buf: seq<uint8>, q: int, m: CodeMap): Result<CodeMap> {
    var a :- Format4Arrays(buf, q);
    Run(Flatten(SegmentParts(a)), m)
  }

  /** A successful format 4 decoding maps every code c of every segment s to idDelta[s] + c when
      idRangeOffset[s] is 0, and otherwise to glyphIdArray[c - startCount[s] + s + idRangeOffset[s]/2 - segCount]. */
  lemma Format4Codes(buf: seq<uint8>, q: int, m: CodeMap, m': CodeMap, s: nat, c: int)
    requires Format4(buf, q, m) == Ok(m')
    requires var a := Format4Arrays(buf, q).value; s < a.segCount && a.startCount[s] <= c <= a.endCount[s]
    ensures var a := Format4Arrays(buf, q).value;
      var j := c - a.startCount[s] + s + a.idRangeOffset[s] / 2 - a.segCount;
      && c in m'.codes
      && (a.idRangeOffset[s] == 0 ==> m'.codes[c] == a.idDelta[s] + c)
      && (a.idRangeOffset[s] != 0 ==> 0 <= j < |a.glyphIdArray| && m'.codes[c] == a.glyphIdArray[j])
  {
    var a := Format4Arrays(buf, q).value;
    var steps := Flatten(SegmentParts(a));
    var k := c - a.startCount[s];
    assert SegmentSteps(a, s)[k] == Format4Step(a, s, c);
    FlattenContains(SegmentParts(a), s, Format4Step(a, s, c));
    RunEntry(steps, m, m', Format4Step(a, s, c));
  }

  /** Iteration z of segment s handles code startCount[s] + z, which lies in the segment. */
  lemma SegmentCode(a: Segments, s: int, z: int)
    requires a.Sized() && 0 <= s < a.segCount && 0 <= z < SegmentLength(a, s)
    ensures SegmentSteps(a, s)[z].Map? ==> SegmentSteps(a, s)[z].code == a.startCount[s] + z
    ensures a.startCount[s] <= a.startCount[s] + z <= a.endCount[s]
  {
    assert SegmentSteps(a, s)[z] == Format4Step(a, s, a.startCount[s] + z);
  }

  /** A successful format 4 decoding adds only codes of its segments. */
  lemma Format4Keys(buf: seq<uint8>, q: int, m: CodeMap, m': CodeMap)
    requires Format4(buf, q, m) == Ok(m')
    ensures var a := Format4Arrays(buf, q).value;
      forall c :: c in m'.codes ==> c in m.codes || exists s :: 0 <= s < a.segCount && a.startCount[s] <= c <= a.endCount[s]
  {
    var a := Format4Arrays(buf, q).value;
    var parts := SegmentParts(a);
    RunKeys(Flatten(parts), m, m');
    forall c | c in m'.codes && c !in m.codes
      ensures exists s :: 0 <= s < a.segCount && a.startCount[s] <= c <= a.endCount[s]
    {
      FlattenKey(parts, c);
      var s, z :| 0 <= s < |parts| && 0 <= z < |parts[s]| && parts[s][z].Map? && parts[s][z].code == c;
      SegmentCode(a, s, z);
    }
  }

  /** The structural cross-check: a rangeShift other than 2 * segCount - searchRange rejects the subtable. */
  lemma Format4RejectsBadRangeShift(buf: seq<uint8>, q: int, m: CodeMap)
    requires Readable(buf, q, 12)
    requires U16At(buf, q + 10) != 2 * (U16At(buf, q + 4) / 2) - U16At(buf, q + 6)
    ensures Format4(buf, q, m) == Err(Malformed)
  {
  }

  // ---------------------------------------------------------------------------------------------
  // Format 12: groups of (startCharCode, endCharCode, startGlyphID), all read as C# ints.

  const INT32_MAX: int := 0x7FFF_FFFF

  /** How many times the inner loop of a group runs before it exits or fails. A group whose
      endCharCode is int.MaxValue never exits normally (the C# counter wraps around), so its
      iterations run until the glyph index leaves the table: the last one counted fails. */
  function GroupIterations(start: int, end: int, startGlyph: int, glyphCount: nat): nat {
    if end == INT32_MAX then
      (if 0 <= startGlyph <= glyphCount then glyphCount - startGlyph + 1 else 1)
    else if end < start then 0
    else end - start + 1
  }

  /** Iteration z maps the (wrapped) code start + z to glyph startGlyph + z. */
  function GroupSteps(start: int, end: int, startGlyph: int, glyphCount: nat): (steps: seq<Step>)
    ensures |steps| == GroupIterations(start, end, startGlyph, glyphCount)
  {
    seq(GroupIterations(start, end, startGlyph, glyphCount), z => Map(ToInt32(start + z), startGlyph + z))
  }

  /** In a group that ends at int.MaxValue the last iteration counted fails, whatever the earlier
      ones did: its glyph index is outside the glyph table. */
  lemma GroupLastFails(start: int, end: int, startGlyph: int, glyphCount: nat, m: CodeMap)
    requires end == INT32_MAX && |m.glyphs| == glyphCount
    ensures var steps := GroupSteps(start, end, startGlyph, glyphCount);
      |steps| > 0 && Apply(m, steps[|steps| - 1]).Err?
  {
    var steps := GroupSteps(start, end, startGlyph, glyphCount);
    assert steps[|steps| - 1] == Map(ToInt32(start + |steps| - 1), startGlyph + |steps| - 1);
  }

  /** The iterations for group i, whose 12-byte record starts at p + 12 * i. */
  function GroupRecordSteps(buf: seq<uint8>, p: int, i: nat, glyphCount: nat): seq<Step> {
    var r := p + 12 * i;
    if !Readable(buf, r, 4) || !Readable(buf, r + 4, 4) || !Readable(buf, r + 8, 4) then [Stop(OutOfBounds)]
    else GroupSteps(I32At(buf, r), I32At(buf, r + 4), I32At(buf, r + 8), glyphCount)
  }

  /** The iterations of groups 0 .. n-1, group by group. */
  function GroupParts(buf: seq<uint8>, p: int, n: nat, glyphCount: nat): (parts: seq<seq<Step>>)
    ensures |parts| == n
    ensures forall i :: 0 <= i < n ==> parts[i] == GroupRecordSteps(buf, p, i, glyphCount)
  {
    seq(n, i requires 0 <= i < n => GroupRecordSteps(buf, p, i, glyphCount))
  }

  /** The decoder of a format 12 subtable whose fields start at q: numGroups after the skipped
      reserved, length and language fields; a negative numGroups runs no group. */
  function Format12(buf: seq<uint8>, q: int, m: CodeMap): Result<CodeMap> {
    if !Readable(buf, q + 10, 4) then Err(OutOfBounds)
    else
      var numGroups := I32At(buf, q + 10);
      Run(Flatten(GroupParts(buf, q + 14, if numGroups < 0 then 0 else numGroups, |m.glyphs|)), m)
  }

  /** Format 12 group by group: once numGroups is read, the groups run one after the other. */
  lemma Format12Groups(buf: seq<uint8>, q: int, m: CodeMap)
    requires Readable(buf, q + 10, 4)
    ensures var numGroups := I32At(buf, q + 10);
      Format12(buf, q, m) == RunParts(GroupParts(buf, q + 14, if numGroups < 0 then 0 else numGroups, |m.glyphs|), m)
  {
    var numGroups := I32At(buf, q + 10);
    RunPartsFlatten(GroupParts(buf, q + 14, if numGroups < 0 then 0 else numGroups, |m.glyphs|), m);
  }

  /** A group whose iterations all belong to a successful run did not end at int.MaxValue, and
      maps each of its codes c to startGlyph + (c - start). */
  lemma GroupCodes(steps: seq<Step>, m: CodeMap, m': CodeMap, start: int, end: int, startGlyph: int)
    requires Run(steps, m) == Ok(m') && IsInt32(start) && IsInt32(end)
    requires forall s :: s in GroupSteps(start, end, startGlyph, |m.glyphs|) ==> s in steps
    ensures end != INT32_MAX
    ensures forall c :: start <= c <= end ==> c in m'.codes && m'.codes[c] == startGlyph + (c - start)
  {
    var group := GroupSteps(start, end, startGlyph, |m.glyphs|);
    if end == INT32_MAX {
      var last := |group| - 1;
      assert group[last] in group;
      RunEntry(steps, m, m', group[last]);
      assert false;
    }
    forall c | start <= c <= end
      ensures c in m'.codes && m'.codes[c] == startGlyph + (c - start)
    {
      var z := c - start;
      assert group[z] == Map(ToInt32(start + z), startGlyph + z);
      assert group[z] in group;
      RunEntry(steps, m, m', group[z]);
    }
  }

  /** In a successful format 12 decoding, every code c of group k maps to
      startGlyphID + (c - startCharCode), and the group did not end at int.MaxValue. */
  lemma Format12Codes(buf: seq<uint8>, q: int, m: CodeMap, m': CodeMap, k: nat)
    requires Format12(buf, q, m) == Ok(m')
    requires Readable(buf, q + 10, 4) && k < I32At(buf, q + 10)
    ensures Readable(buf, q + 14 + 12 * k, 12)
    ensures var r := q + 14 + 12 * k;
      var start, end, startGlyph := I32At(buf, r), I32At(buf, r + 4), I32At(buf, r + 8);
      && end != INT32_MAX
      && forall c :: start <= c <= end ==> c in m'.codes && m'.codes[c] == startGlyph + (c - start)
  {
    var numGroups := I32At(buf, q + 10);
    var parts := GroupParts(buf, q + 14, numGroups, |m.glyphs|);
    var steps := Flatten(parts);
    var group := parts[k];
    forall s | s in group ensures s in steps {
      FlattenContains(parts, k, s);
    }
    var r := q + 14 + 12 * k;
    if !(Readable(buf, r, 4) && Readable(buf, r + 4, 4) && Readable(buf, r + 8, 4)) {
      assert group[0] in group;
      RunEntry(steps, m, m', group[0]);
      assert false;
    }
    GroupCodes(steps, m, m', I32At(buf, r), I32At(buf, r + 4), I32At(buf, r + 8));
  }

  /** In a group that does not end at int.MaxValue, iteration z handles code start + z, with no
      wrap-around, and that code lies in the group. */
  lemma GroupCode(start: int, end: int, startGlyph: int, glyphCount: nat, z: int)
    requires IsInt32(start) && IsInt32(end) && end != INT32_MAX
    requires 0 <= z < |GroupSteps(start, end, startGlyph, glyphCount)|
    ensures GroupSteps(start, end, startGlyph, glyphCount)[z] == Map(start + z, startGlyph + z)
    ensures start <= start + z <= end
  {
    assert GroupSteps(start, end, startGlyph, glyphCount)[z] == Map(ToInt32(start + z), startGlyph + z);
  }

  /** Code c lies in the range of group k of the format 12 subtable whose fields start at q. */
  ghost predicate InGroup(buf: seq<uint8>, q: int, k: int, c: int) {
    var r := q + 14 + 12 * k;
    Readable(buf, r, 12) && I32At(buf, r) <= c <= I32At(buf, r + 4)
  }

  /** A code a successful format 12 decoding adds lies in one of its groups. */
  lemma Format12Key(buf: seq<uint8>, q: int, m: CodeMap, m': CodeMap, count: nat, c: int)
    requires Format12(buf, q, m) == Ok(m')
    requires Readable(buf, q + 10, 4) && count == (if I32At(buf, q + 10) < 0 then 0 else I32At(buf, q + 10))
    requires c in KeysOf(Flatten(GroupParts(buf, q + 14, count, |m.glyphs|)))
    ensures exists k :: 0 <= k < I32At(buf, q + 10) && InGroup(buf, q, k, c)
  {
    var parts := GroupParts(buf, q + 14, count, |m.glyphs|);
    FlattenKey(parts, c);
    var k, z :| 0 <= k < |parts| && 0 <= z < |parts[k]| && parts[k][z].Map? && parts[k][z].code == c;
    var r := q + 14 + 12 * k;
    assert Readable(buf, r, 12) && I32At(buf, r + 4) != INT32_MAX by {
      Format12Codes(buf, q, m, m', k);
    }
    var start, end, startGlyph := I32At(buf, r), I32At(buf, r + 4), I32At(buf, r + 8);
    assert parts[k] == GroupSteps(start, end, startGlyph, |m.glyphs|);
    GroupCode(start, end, startGlyph, |m.glyphs|, z);
    assert InGroup(buf, q, k, c);
  }

  /** A successful format 12 decoding adds only codes of its groups. */
  lemma Format12Keys(buf: seq<uint8>, q: int, m: CodeMap, m': CodeMap)
    requires Format12(buf, q, m) == Ok(m')
    ensures Readable(buf, q + 10, 4)
    ensures forall c :: c in m'.codes ==> c in m.codes || exists k :: 0 <= k < I32At(buf, q + 10) && InGroup(buf, q, k, c)
  {
    var n := I32At(buf, q + 10);
    var count: nat := if n < 0 then 0 else n;
    RunKeys(Flatten(GroupParts(buf, q + 14, count, |m.glyphs|)), m, m');
    forall c | c in m'.codes && c !in m.codes
      ensures exists k :: 0 <= k < n && InGroup(buf, q, k, c)
    {
      Format12Key(buf, q, m, m', count, c);
    }
  }

  // ---------------------------------------------------------------------------------------------
  // Subtable selection.

  /** The subtable positions found so far: CMAP_10 for (platform 1, encoding 0) and CMAP_310 for
      (platform 3, encoding 10); 0 stands for "not found". */
  datatype Selection = Selection(cmap10: int, cmap310: int)

  /** Scans the first n encoding records of the cmap table at `off`; a later record for the same
      pair replaces an earlier one. The position `off + offset` wraps as C# `int` addition does. */
  function Scan(buf: seq<uint8>, off: int, n: nat): Result<Selection> {
    if n == 0 then Ok(Selection(0, 0))
    else
      var sel :- Scan(buf, off, n - 1);
      var r := off + 4 + 8 * (n - 1);
      if !Readable(buf, r, 2) || !Readable(buf, r + 2, 2) || !Readable(buf, r + 4, 4) then Err(OutOfBounds)
      else
        var platformID, encodingID, offset := U16At(buf, r), U16At(buf, r + 2), I32At(buf, r + 4);
        if platformID == 1 && encodingID == 0 then Ok(sel.(cmap10 := ToInt32(off + offset)))
        else if platformID == 3 && encodingID == 10 then Ok(sel.(cmap310 := ToInt32(off + offset)))
        else Ok(sel)
  }

  /** Once an encoding record fails, the scan fails the same way. */
  lemma {:induction false} ScanStops(buf: seq<uint8>, off: int, k: nat, n: nat)
    requires k <= n && Scan(buf, off, k).Err?
    ensures Scan(buf, off, n) == Scan(buf, off, k)
    decreases n
  {
    if k < n {
      ScanStops(buf, off, k, n - 1);
    }
  }

  /** Decodes the subtable at `start` by its format; format 12 only when `allow12`; any other
      format leaves the map as it is. */
  function Subtable(buf: seq<uint8>, start: int, allow12: bool, m: CodeMap): Result<CodeMap> {
    if !Readable(buf, start, 2) then Err(OutOfBounds)
    else
      var format, q := U16At(buf, start), start + 2;
      if format == 0 then Run(Format0Steps(buf, q + 4), m)
      else if format == 4 then Format4(buf, q, m)
      else if format == 6 then Format6(buf, q, m)
      else if format == 12 && allow12 then Format12(buf, q, m)
      else Ok(m)
  }

  /** The whole cmap table at `off`: prefers (3, 10), else (1, 0), else maps nothing. */
  function Cmap(buf: seq<uint8>, off: int, m: CodeMap): Result<CodeMap> {
    if !Readable(buf, off + 2, 2) then Err(OutOfBounds)
    else
      var sel :- Scan(buf, off, U16At(buf, off + 2));
      if sel.cmap310 > 0 then Subtable(buf, sel.cmap310, true, m)
      else if sel.cmap10 > 0 then Subtable(buf, sel.cmap10, false, m)
      else Ok(m)
  }

  /** What a run keeps: the glyph table's size and occupied slots, everything of each glyph but
      its code, the earlier entries, and entries that all point at existing glyphs. */
  ghost predicate Keeps(m: CodeMap, m': CodeMap) {
    && |m'.glyphs| == |m.glyphs|
    && (forall c :: c in m.codes ==> c in m'.codes && m'.codes[c] == m.codes[c])
    && (forall g :: 0 <= g < |m.glyphs| ==> (m'.glyphs[g].Some? <==> m.glyphs[g].Some?))
    && (forall g :: 0 <= g < |m.glyphs| && m.glyphs[g].Some? ==>
          m'.glyphs[g] == Some(m.glyphs[g].value.(unicode := m'.glyphs[g].value.unicode)))
    && TargetsValid(m')
  }

  lemma RunKeeps(steps: seq<Step>, m: CodeMap)
    requires TargetsValid(m) && Run(steps, m).Ok?
    ensures Keeps(m, Run(steps, m).value)
  {
    var m' := Run(steps, m).value;
    RunKeys(steps, m, m');
    RunGlyphs(steps, m, m');
    RunKeepsTargetsValid(steps, m);
  }

  lemma SubtableKeeps(buf: seq<uint8>, start: int, allow12: bool, m: CodeMap)
    requires TargetsValid(m) && Subtable(buf, start, allow12, m).Ok?
    ensures Keeps(m, Subtable(buf, start, allow12, m).value)
  {
    var format, q := U16At(buf, start), start + 2;
    if format == 0 {
      RunKeeps(Format0Steps(buf, q + 4), m);
    } else if format == 4 {
      RunKeeps(Flatten(SegmentParts(Format4Arrays(buf, q).value)), m);
    } else if format == 6 {
      RunKeeps(Format6Steps(buf, q + 8, U16At(buf, q + 4), U16At(buf, q + 6)), m);
    } else if format == 12 && allow12 {
      var n := I32At(buf, q + 10);
      RunKeeps(Flatten(GroupParts(buf, q + 14, if n < 0 then 0 else n, |m.glyphs|)), m);
    }
  }

  /** Whatever subtable is chosen, decoding never changes the size of the glyph table, keeps the
      old entries and keeps every entry pointing at an existing glyph. */
  lemma CmapKeepsGlyphTable(buf: seq<uint8>, off: int, m: CodeMap)
    requires TargetsValid(m) && Cmap(buf, off, m).Ok?
    ensures Keeps(m, Cmap(buf, off, m).value)
  {
    var sel := Scan(buf, off, U16At(buf, off + 2)).value;
    if sel.cmap310 > 0 {
      SubtableKeeps(buf, sel.cmap310, true, m);
    } else if sel.cmap10 > 0 {
      SubtableKeeps(buf, sel.cmap10, false, m);
    }
  }

  /** The subtable choice: (3, 10) wins whenever present, (1, 0) is used otherwise. A chosen
      subtable in a format the reader does not decode, which includes format 12 under (1, 0),
      leaves the code map unchanged without error. */
  lemma CmapSelects(buf: seq<uint8>, off: int, m: CodeMap)
    requires Readable(buf, off + 2, 2) && Scan(buf, off, U16At(buf, off + 2)).Ok?
    ensures var sel := Scan(buf, off, U16At(buf, off + 2)).value;
      && (sel.cmap310 > 0 ==> Cmap(buf, off, m) == Subtable(buf, sel.cmap310, true, m))
      && (sel.cmap310 <= 0 && sel.cmap10 > 0 ==> Cmap(buf, off, m) == Subtable(buf, sel.cmap10, false, m))
      && (sel.cmap310 <= 0 && sel.cmap10 <= 0 ==> Cmap(buf, off, m) == Ok(m))
      && (sel.cmap310 > 0 && Readable(buf, sel.cmap310, 2) && U16At(buf, sel.cmap310) !in {0, 4, 6, 12} ==>
            Cmap(buf, off, m) == Ok(m))
      && (sel.cmap310 <= 0 && sel.cmap10 > 0 && Readable(buf, sel.cmap10, 2) && U16At(buf, sel.cmap10) !in {0, 4, 6} ==>
            Cmap(buf, off, m) == Ok(m))
  {
  }
}
