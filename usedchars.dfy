/**
  The used-character state of a font (FirstChar, LastChar, hashChar): the character codes written
  with the font, and their smallest and largest value, which bound the PDF /Widths array.
*/
module UsedChars {
  import opened Errors

  /** FirstChar (null until a character is added), LastChar (-1 until then) and hashChar. */
  datatype Used = Used(first: Option<int>, last: int, chars: set<int>)

  /** The state of a font nothing has been written with. */
  const Empty: Used := Used(None, -1, {})

  /** A C# `char`: a UTF-16 code unit. C# strings are sequences of these, so a text is a
      `seq<char16>` here rather than a Dafny `string` of Unicode scalar values. */
  newtype char16 = c: int | 0 <= c < 0x1_0000

  predicate IsChar(c: int) {
    0 <= c < 0x1_0000
  }

  /** FirstChar is null exactly while hashChar is empty, and LastChar is then -1; otherwise
      FirstChar and LastChar are the smallest and the largest member of hashChar. */
  predicate Inv(u: Used) {
    && (forall c :: c in u.chars ==> IsChar(c))
    && (u.first.None? <==> u.chars == {})
    && (u.first.None? ==> u.last == -1)
    && (u.first.Some? ==> u.first.value in u.chars && u.last in u.chars)
    && (forall c :: c in u.chars ==> u.first.Some? && u.first.value <= c <= u.last)
  }

  /** `AddNewChar(c)`: c joins hashChar, FirstChar becomes c when null or greater than c, and
      LastChar becomes c when smaller than c. */
  function AddChar(u: Used, c: char16): (r: Used)
    ensures r.chars == u.chars + {c as int}
    ensures Inv(u) ==> Inv(r)
    ensures Inv(u) ==> r.first == Some(if u.first.Some? && u.first.value <= c as int then u.first.value else c as int)
    ensures Inv(u) ==> r.last == if c as int <= u.last then u.last else c as int
  {
    var first := if u.first.None? || (c as int) < u.first.value then Some(c as int) else u.first;
    var last := if c as int > u.last then c as int else u.last;
    Used(first, last, u.chars + {c as int})
  }

  /** `SetText(s)`: `AddNewChar` on each character of s, from left to right. */
  function Text(u: Used, s: seq<char16>): Used
    decreases |s|
  {
    if s == [] then u else AddChar(Text(u, s[..|s| - 1]), s[|s| - 1])
  }

  /** The character codes of s. */
  function CodesOf(s: seq<char16>): set<int> {
    set i | 0 <= i < |s| :: s[i] as int
  }

  /** Adding a character that is already in hashChar changes nothing. */
  lemma AddPresentChar(u: Used, c: char16)
    requires Inv(u) && c as int in u.chars
    ensures AddChar(u, c) == u
  {
  }

  /** Two states that satisfy the invariant and hold the same characters are equal: FirstChar and
      LastChar are determined by hashChar. */
  lemma DeterminedByChars(u: Used, v: Used)
    requires Inv(u) && Inv(v) && u.chars == v.chars
    ensures u == v
  {
    if u.first.Some? {
      assert v.first.value in u.chars && u.first.value in v.chars;
      assert v.last in u.chars && u.last in v.chars;
    }
  }

  /** `SetText` keeps the invariant and adds exactly the characters of the text. */
  lemma {:induction false} TextChars(u: Used, s: seq<char16>)
    requires Inv(u)
    ensures Inv(Text(u, s)) && Text(u, s).chars == u.chars + CodesOf(s)
    decreases |s|
  {
    if s != [] {
      var init := s[..|s| - 1];
      TextChars(u, init);
      assert CodesOf(s) == CodesOf(init) + {s[|s| - 1] as int} by {
        forall x | x in CodesOf(s) ensures x in CodesOf(init) + {s[|s| - 1] as int} {
          var i :| 0 <= i < |s| && s[i] as int == x;
          if i < |s| - 1 {
            assert init[i] == s[i];
          }
        }
        forall x | x in CodesOf(init) ensures x in CodesOf(s) {
          var i :| 0 <= i < |init| && init[i] as int == x;
          assert s[i] == init[i];
        }
      }
    }
  }

  /** The state after `SetText` depends only on the set of characters written, not on their
      order or repetition. */
  lemma TextOrderFree(u: Used, s: seq<char16>, t: seq<char16>)
    requires Inv(u) && CodesOf(s) == CodesOf(t)
    ensures Text(u, s) == Text(u, t)
  {
    TextChars(u, s);
    TextChars(u, t);
    DeterminedByChars(Text(u, s), Text(u, t));
  }

  /** Writing the same text twice has the effect of writing it once. */
  lemma TextIdempotent(u: Used, s: seq<char16>)
    requires Inv(u)
    ensures Text(Text(u, s), s) == Text(u, s)
  {
    TextChars(u, s);
    TextChars(Text(u, s), s);
    DeterminedByChars(Text(Text(u, s), s), Text(u, s));
  }

  /** After writing text s from the empty state, FirstChar and LastChar are the smallest and the
      largest code in s, and FirstChar is null only for the empty text. */
  lemma TextBounds(s: seq<char16>)
    ensures var u := Text(Empty, s);
      && u.chars == CodesOf(s)
      && (u.first.None? <==> s == [])
      && (s == [] ==> u.last == -1)
      && (u.first.Some? ==> u.first.value in CodesOf(s) && u.last in CodesOf(s))
      && forall i :: 0 <= i < |s| ==> u.first.Some? && u.first.value <= s[i] as int <= u.last
  {
    TextChars(Empty, s);
    var u := Text(Empty, s);
    if s != [] {
      assert s[0] as int in CodesOf(s);
    }
    forall i | 0 <= i < |s| ensures u.first.Some? && u.first.value <= s[i] as int <= u.last {
      assert s[i] as int in CodesOf(s);
    }
  }
}
