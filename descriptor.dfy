/**
  The PDF font dictionary `Write` produces for a simple TrueType font (ISO 32000-1, section 9.6.2
  for /FirstChar, /LastChar and /Widths, section 9.6.3 for TrueType fonts): one width per
  character code from FirstChar to LastChar, written as decimal integers separated by spaces.
*/
module Descriptor {
  import opened Errors
  import opened Glyphs
  import opened CharMap
  import opened UsedChars

  // ---------------------------------------------------------------------------------------------
  // Decimal integers, as `StringBuilder.Append(int)` and string concatenation write them.

  function DigitChar(d: int): (c: char)
    requires 0 <= d < 10
    ensures '0' <= c <= '9' && c as int - '0' as int == d
  {
    "0123456789"[d]
  }

  function NatToString(n: nat): string
    decreases n
  {
    if n < 10 then [DigitChar(n)] else NatToString(n / 10) + [DigitChar(n % 10)]
  }

  /** The decimal form of n, with a leading '-' when negative. */
  function IntToString(n: int): string {
    if n < 0 then "-" + NatToString(-n) else NatToString(n)
  }

  predicate IsDigits(s: string) {
    |s| > 0 && forall i :: 0 <= i < |s| ==> '0' <= s[i] <= '9'
  }

  /** The value of a string of decimal digits. */
  function DigitsValue(s: string): int
    requires forall i :: 0 <= i < |s| ==> '0' <= s[i] <= '9'
    decreases |s|
  {
    if s == [] then 0 else DigitsValue(s[..|s| - 1]) * 10 + (s[|s| - 1] as int - '0' as int)
  }

  /** A decimal integer: digits with an optional leading '-'. */
  predicate IsDecimal(s: string) {
    IsDigits(s) || (|s| > 1 && s[0] == '-' && IsDigits(s[1..]))
  }

  /** Reads back a decimal integer. */
  function ParseInt(s: string): int
    requires IsDecimal(s)
  {
    if s[0] == '-' then -DigitsValue(s[1..]) else DigitsValue(s)
  }

  lemma {:induction false} NatToStringRoundTrip(n: nat)
    ensures IsDigits(NatToString(n)) && DigitsValue(NatToString(n)) == n
    decreases n
  {
    var s := NatToString(n);
    if n >= 10 {
      var q, r := n / 10, n % 10;
      NatToStringRoundTrip(q);
      assert s == NatToString(q) + [DigitChar(r)];
      assert s[..|s| - 1] == NatToString(q);
      assert DigitsValue(s) == q * 10 + r;
    } else {
      assert s[..0] == [];
    }
  }

  /** Every integer written is a decimal integer that reads back as itself. */
  lemma IntToStringRoundTrip(n: int)
    ensures IsDecimal(IntToString(n)) && ParseInt(IntToString(n)) == n
  {
    if n < 0 {
      NatToStringRoundTrip(-n);
      assert IntToString(n)[1..] == NatToString(-n);
    } else {
      NatToStringRoundTrip(n);
    }
  }

  // ---------------------------------------------------------------------------------------------
  // The /Widths array.

  /** The width written for a code c after the first: 0 when c was never written, the font's
      default Width when c was written but has no glyph, and its glyph's width otherwise. */
  function WidthEntry(m: CodeMap, chars: set<int>, width: int, c: int): int
    requires TargetsValid(m)
  {
    if c !in chars then 0
    else if c !in m.codes then width
    else m.glyphs[m.codes[c]].value.width
  }

  /** The widths from FirstChar to LastChar: none when no character was written; the first is
      always looked up in the code map, so an unmapped FirstChar fails. */
  function Widths(m: CodeMap, u: Used, width: int): Result<seq<int>>
    requires TargetsValid(m)
  {
    if u.first.None? then Ok([])
    else
      var first := u.first.value;
      if first !in m.codes then Err(KeyNotFound(first))
      else
        var n := if u.last > first then u.last - first else 0;
        Ok([m.glyphs[m.codes[first]].value.width] + seq(n, k requires 0 <= k < n => WidthEntry(m, u.chars, width, first + 1 + k)))
  }

  /** The widths separated by single spaces. */
  function Joined(ws: seq<int>): string
    decreases |ws|
  {
    if ws == [] then ""
    else if |ws| == 1 then IntToString(ws[0])
    else Joined(ws[..|ws| - 1]) + " " + IntToString(ws[|ws| - 1])
  }

  /** Joining one more width appends a space and its decimal form. */
  lemma JoinedSnoc(ws: seq<int>, w: int)
    requires ws != []
    ensures Joined(ws + [w]) == Joined(ws) + " " + IntToString(w)
  {
    assert (ws + [w])[..|ws|] == ws;
  }

  /** The dictionary, with the font descriptor's object number `descriptorId`. A null FirstChar
      is written as nothing, as C# writes a null `int?`. */
  function FontDict(m: CodeMap, u: Used, width: int, descriptorId: int, fontName: string): Result<string>
    requires TargetsValid(m)
  {
    var ws :- Widths(m, u, width);
    Ok("<</Encoding/WinAnsiEncoding/Type/Font/Subtype/TrueType/Widths [" + Joined(ws) +
       "]/FirstChar " + (if u.first.Some? then IntToString(u.first.value) else "") +
       "/LastChar " + IntToString(u.last) +
       "/FontDescriptor " + IntToString(descriptorId) + " 0 R/BaseFont/" + fontName + ">>")
  }

  /** With no character written the array is empty. Otherwise it fails exactly when FirstChar has
      no glyph, and it has LastChar - FirstChar + 1 entries, entry i being the width for code
      FirstChar + i by the rule of WidthEntry. */
  lemma WidthsEntries(m: CodeMap, u: Used, width: int)
    requires TargetsValid(m) && Inv(u)
    ensures u.first.None? ==> Widths(m, u, width) == Ok([])
    ensures u.first.Some? ==> (Widths(m, u, width).Err? <==> u.first.value !in m.codes)
    ensures u.first.Some? && Widths(m, u, width).Err? ==> Widths(m, u, width).error == KeyNotFound(u.first.value)
    ensures u.first.Some? && Widths(m, u, width).Ok? ==>
      var ws := Widths(m, u, width).value;
      && |ws| == u.last - u.first.value + 1
      && forall i :: 0 <= i < |ws| ==> ws[i] == WidthEntry(m, u.chars, width, u.first.value + i)
  {
  }

  /** The array has LastChar - FirstChar + 1 entries, the first being FirstChar's glyph width. */
  lemma WidthsFirst(m: CodeMap, u: Used, width: int, ws: seq<int>)
    requires TargetsValid(m) && Inv(u) && Widths(m, u, width) == Ok(ws) && u.first.Some?
    ensures |ws| == u.last - u.first.value + 1 && ws[0] == WidthEntry(m, u.chars, width, u.first.value)
  {
  }

  // ---------------------------------------------------------------------------------------------
  // Reading the array back.

  /** The fields of s between single spaces, read from left to right. */
  function Fields(s: string): (fs: seq<string>)
    ensures |fs| > 0
    decreases |s|
  {
    if s == [] then [""]
    else
      var fs := Fields(s[..|s| - 1]);
      var c := s[|s| - 1];
      if c == ' ' then fs + [""] else fs[..|fs| - 1] + [fs[|fs| - 1] + [c]]
  }

  lemma {:induction false} FieldsAppend(a: string, b: string)
    requires forall i :: 0 <= i < |b| ==> b[i] != ' '
    ensures Fields(a + " " + b) == Fields(a) + [b]
    decreases |b|
  {
    if b == [] {
      assert (a + " " + b)[..|a + " " + b| - 1] == a;
    } else {
      var b' := b[..|b| - 1];
      FieldsAppend(a, b');
      assert (a + " " + b)[..|a + " " + b| - 1] == a + " " + b';
      assert b' + [b[|b| - 1]] == b;
    }
  }

  lemma {:induction false} NoSpaceInNumber(n: int)
    ensures forall i :: 0 <= i < |IntToString(n)| ==> IntToString(n)[i] != ' '
  {
    IntToStringRoundTrip(n);
  }

  /** The written array reads back as the widths it was written from: splitting at the spaces
      gives one decimal field per width. */
  lemma {:induction false} JoinedRoundTrip(ws: seq<int>)
    requires ws != []
    ensures var fs := Fields(Joined(ws));
      && |fs| == |ws|
      && forall i :: 0 <= i < |ws| ==> IsDecimal(fs[i]) && ParseInt(fs[i]) == ws[i]
    decreases |ws|
  {
    var last := ws[|ws| - 1];
    IntToStringRoundTrip(last);
    NoSpaceInNumber(last);
    if |ws| == 1 {
      FieldsOfWord(IntToString(last));
    } else {
      var init := ws[..|ws| - 1];
      JoinedRoundTrip(init);
      FieldsAppend(Joined(init), IntToString(last));
      var fs := Fields(Joined(ws));
      forall i | 0 <= i < |ws| ensures IsDecimal(fs[i]) && ParseInt(fs[i]) == ws[i] {
        if i < |ws| - 1 {
          assert fs[i] == Fields(Joined(init))[i];
        }
      }
    }
  }

  lemma {:induction false} FieldsOfWord(s: string)
    requires forall i :: 0 <= i < |s| ==> s[i] != ' '
    ensures Fields(s) == [s]
    decreases |s|
  {
    if s != [] {
      FieldsOfWord(s[..|s| - 1]);
      assert s[..|s| - 1] + [s[|s| - 1]] == s;
    }
  }
}
