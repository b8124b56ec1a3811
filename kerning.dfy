/**
  The width of a text in glyph units (thousandths of the em), before the font size scales it:
  the widths of the glyphs its characters map to, plus the kerning of each pair of adjacent
  characters that the kerning table lists.
*/
module Kerning {
  import opened Bytes
  import opened Glyphs
  import opened CharMap
  import opened UsedChars

  /** The kerning key of a pair, `(previousChar << 16) + ch` in C# `int` arithmetic: the shift
      wraps to a negative number when previousChar is 0x8000 or more; the addition cannot overflow. */
  function PairKey(prev: char16, ch: char16): int {
    ToInt32(ToInt32(prev as int * 0x1_0000) + ch as int)
  }

  /** The width of the glyph c maps to, or nothing for an unmapped character. */
  function Advance(m: CodeMap, c: char16): int
    requires TargetsValid(m)
  {
    if c as int in m.codes then m.glyphs[m.codes[c as int]].value.width else 0
  }

  /** The kerning between prev and ch, or nothing when the table has no entry for the pair. */
  function Kern(kern: map<int, int>, prev: char16, ch: char16): int {
    var k := PairKey(prev, ch);
    if k in kern then kern[k] else 0
  }

  /** `currentSize`: the sum of the advances of the characters of s. */
  function Advances(m: CodeMap, s: seq<char16>): int
    requires TargetsValid(m)
    decreases |s|
  {
    if s == [] then 0 else Advances(m, s[..|s| - 1]) + Advance(m, s[|s| - 1])
  }

  /** `kerning`: the sum of the kerning of each adjacent pair of s. */
  function Kerns(kern: map<int, int>, s: seq<char16>): int
    decreases |s|
  {
    if |s| < 2 then 0 else Kerns(kern, s[..|s| - 1]) + Kern(kern, s[|s| - 2], s[|s| - 1])
  }

  /** `currentSize + kerning`, the quantity the font size then scales. */
  function KernedWidth(m: CodeMap, kern: map<int, int>, s: seq<char16>): int
    requires TargetsValid(m)
  {
    Advances(m, s) + Kerns(kern, s)
  }

  /** The key of a pair is the unsigned value (prev << 16) + ch, less 2^32 when prev has its top
      bit set. */
  lemma PairKeyValue(prev: char16, ch: char16)
    ensures PairKey(prev, ch) == prev as int * 0x1_0000 + ch as int - (if prev < 0x8000 then 0 else 0x1_0000_0000)
  {
    var x := prev as int * 0x1_0000;
    assert ToInt32(x) == x - (if prev < 0x8000 then 0 else 0x1_0000_0000);
  }

  /** The key identifies the pair: two pairs with the same key are the same pair. */
  lemma PairKeyInjective(a: char16, b: char16, c: char16, d: char16)
    requires PairKey(a, b) == PairKey(c, d)
    ensures a == c && b == d
  {
    PairKeyValue(a, b);
    PairKeyValue(c, d);
    assert (a < 0x8000) == (c < 0x8000);
    assert a as int * 0x1_0000 + b as int == c as int * 0x1_0000 + d as int;
  }

  /** The width of a concatenation is the widths of the parts plus the kerning of the pair where
      they meet. */
  lemma {:induction false} KernedWidthConcat(m: CodeMap, kern: map<int, int>, s: seq<char16>, t: seq<char16>)
    requires TargetsValid(m)
    ensures KernedWidth(m, kern, s + t) ==
      KernedWidth(m, kern, s) + KernedWidth(m, kern, t) + (if s != [] && t != [] then Kern(kern, s[|s| - 1], t[0]) else 0)
    decreases |t|
  {
    if t == [] {
      assert s + t == s;
    } else {
      var t' := t[..|t| - 1];
      KernedWidthConcat(m, kern, s, t');
      assert (s + t)[..|s + t| - 1] == s + t';
      if |t| == 1 {
        assert t' == [];
        assert s + t' == s;
      } else {
        assert t[..|t| - 1][..|t'| - 1] == t'[..|t'| - 1];
      }
    }
  }

  /** A text of one character has the width of its glyph: the first character carries no
      kerning, and the empty text has width 0. */
  lemma KernedWidthShort(m: CodeMap, kern: map<int, int>, c: char16)
    requires TargetsValid(m)
    ensures KernedWidth(m, kern, []) == 0
    ensures KernedWidth(m, kern, [c]) == Advance(m, c)
  {
    assert [c][..0] == [];
  }

  /** Without a kerning table, the width is the sum of the glyph widths alone. */
  lemma {:induction false} NoKerning(s: seq<char16>)
    ensures Kerns(map[], s) == 0
    decreases |s|
  {
    if |s| >= 2 {
      NoKerning(s[..|s| - 1]);
    }
  }

  /** Characters the code map does not map add nothing. */
  lemma {:induction false} UnmappedAddNothing(m: CodeMap, s: seq<char16>)
    requires TargetsValid(m)
    requires forall i :: 0 <= i < |s| ==> s[i] as int !in m.codes
    ensures Advances(m, s) == 0
    decreases |s|
  {
    if s != [] {
      UnmappedAddNothing(m, s[..|s| - 1]);
    }
  }
}
