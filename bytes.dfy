/** Big-endian decoding of the font buffer and the C# integer conversions the reader relies on. */
module Bytes {

  newtype uint8 = x: int | 0 <= x < 0x100
  newtype uint16 = x: int | 0 <= x < 0x1_0000

  predicate IsInt32(x: int) {
    -0x8000_0000 <= x < 0x8000_0000
  }

  /** Two's-complement wrap-around to 32 bits, as unchecked C# `int` arithmetic does. */
  function ToInt32(x: int): (r: int)
    ensures IsInt32(r)
    ensures (x - r) % 0x1_0000_0000 == 0
    ensures IsInt32(x) ==> r == x
  {
    var m := x % 0x1_0000_0000;
    if m < 0x8000_0000 then m else m - 0x1_0000_0000
  }

  /** Incrementing a wrapped value wraps like incrementing the unwrapped one: a C# `int`
      counter that is incremented n times from x holds ToInt32(x + n). */
  lemma ToInt32Succ(x: int)
    ensures ToInt32(ToInt32(x) + 1) == ToInt32(x + 1)
  {
    var r := ToInt32(x);
    var k := (x - r) / 0x1_0000_0000;
    assert x - r == k * 0x1_0000_0000;
    assert (x + 1) % 0x1_0000_0000 == (r + 1) % 0x1_0000_0000;
  }

  /** The C# `(short)` cast of a 16-bit pattern. */
  function ToInt16(x: int): (r: int)
    requires 0 <= x < 0x1_0000
    ensures -0x8000 <= r < 0x8000
    ensures (x - r) % 0x1_0000 == 0
  {
    if x < 0x8000 then x else x - 0x1_0000
  }

  /** C# integer division by a positive divisor, which truncates toward zero. */
  function TruncDiv(a: int, b: int): (q: int)
    requires b > 0
    ensures 0 <= a ==> 0 <= a - q * b < b
    ensures a < 0 ==> -b < a - q * b <= 0
  {
    if a >= 0 then a / b else -((-a) / b)
  }

  /** A read of `width` bytes at `pos` stays inside the buffer. */
  predicate Readable(buf: seq<uint8>, pos: int, width: nat) {
    0 <= pos && pos + width <= |buf|
  }

  /** `n` consecutive reads of `width` bytes starting at `pos` all stay inside the buffer. */
  predicate ReadableRun(buf: seq<uint8>, pos: int, width: nat, n: nat) {
    n == 0 || Readable(buf, pos, width * n)
  }

  function U8At(buf: seq<uint8>, pos: int): (r: int)
    requires Readable(buf, pos, 1)
    ensures 0 <= r < 0x100
  {
    buf[pos] as int
  }

  function U16At(buf: seq<uint8>, pos: int): (r: int)
    requires Readable(buf, pos, 2)
    ensures 0 <= r < 0x1_0000
  {
    buf[pos] as int * 0x100 + buf[pos + 1] as int
  }

  function I16At(buf: seq<uint8>, pos: int): (r: int)
    requires Readable(buf, pos, 2)
    ensures -0x8000 <= r < 0x8000
  {
    ToInt16(U16At(buf, pos))
  }

  /** The unsigned big-endian 32-bit value at `pos`. */
  function U32At(buf: seq<uint8>, pos: int): (r: int)
    requires Readable(buf, pos, 4)
    ensures 0 <= r < 0x1_0000_0000
  {
    ((buf[pos] as int * 0x100 + buf[pos + 1] as int) * 0x100 + buf[pos + 2] as int) * 0x100 + buf[pos + 3] as int
  }

  /** What GetUInt32 returns: the 32-bit pattern read as a signed C# `int`. */
  function I32At(buf: seq<uint8>, pos: int): (r: int)
    requires Readable(buf, pos, 4)
    ensures IsInt32(r)
    ensures r >= 0 ==> r == U32At(buf, pos)
    ensures r < 0 ==> r == U32At(buf, pos) - 0x1_0000_0000
  {
    var u := U32At(buf, pos);
    if u < 0x8000_0000 then u else u - 0x1_0000_0000
  }

  /** System.Text.Encoding.ASCII decoding of one byte: anything above 0x7F becomes '?'. */
  function AsciiChar(b: uint8): (c: char)
    ensures b < 0x80 ==> c as int == b as int
    ensures b >= 0x80 ==> c == '?'
  {
    if b < 0x80 then (b as int) as char else '?'
  }

  function AsciiAt(buf: seq<uint8>, pos: int, n: nat): (s: string)
    requires ReadableRun(buf, pos, 1, n)
    ensures |s| == n
    ensures forall i :: 0 <= i < n ==> s[i] == AsciiChar(buf[pos + i])
  {
    seq(n, i requires 0 <= i < n => AsciiChar(buf[pos + i]))
  }

  /** `n` consecutive 16-bit unsigned values starting at `pos`. */
  function U16s(buf: seq<uint8>, pos: int, n: nat): (r: seq<int>)
    requires ReadableRun(buf, pos, 2, n)
    ensures |r| == n
    ensures forall i :: 0 <= i < n ==> r[i] == U16At(buf, pos + 2 * i)
  {
    seq(n, i requires 0 <= i < n => U16At(buf, pos + 2 * i))
  }

  // Encoders: the byte layouts the decoders read back.

  function Encode16(v: int): (bs: seq<uint8>)
    requires 0 <= v < 0x1_0000
    ensures |bs| == 2
  {
    [(v / 0x100) as uint8, (v % 0x100) as uint8]
  }

  function Encode32(v: int): (bs: seq<uint8>)
    requires 0 <= v < 0x1_0000_0000
    ensures |bs| == 4
  {
    Encode16(v / 0x1_0000) + Encode16(v % 0x1_0000)
  }

  lemma U16RoundTrip(v: int)
    requires 0 <= v < 0x1_0000
    ensures U16At(Encode16(v), 0) == v
  {
  }

  /** A signed 16-bit value stored as its two's-complement pattern reads back unchanged. */
  lemma I16RoundTrip(v: int)
    requires -0x8000 <= v < 0x8000
    ensures I16At(Encode16(if v < 0 then v + 0x1_0000 else v), 0) == v
  {
  }

  /** GetUInt32's signed result reads back every 32-bit signed value from its pattern. */
  lemma I32RoundTrip(v: int)
    requires IsInt32(v)
    ensures I32At(Encode32(if v < 0 then v + 0x1_0000_0000 else v), 0) == v
  {
    var u := if v < 0 then v + 0x1_0000_0000 else v;
    var bs := Encode32(u);
    assert U32At(bs, 0) == u by {
      assert bs[0] as int * 0x100 + bs[1] as int == u / 0x1_0000;
      assert bs[2] as int * 0x100 + bs[3] as int == u % 0x1_0000;
    }
  }
  /** The bytes of an ASCII string, one per character. */
  function EncodeAscii(s: string): (bs: seq<uint8>)
    requires forall i :: 0 <= i < |s| ==> s[i] as int < 0x80
    ensures |bs| == |s|
  {
    seq(|s|, i requires 0 <= i < |s| => s[i] as int as uint8)
  }

  /** A tag of ASCII characters, such as "head" or "cmap", reads back unchanged. */
  lemma AsciiRoundTrip(s: string)
    requires forall i :: 0 <= i < |s| ==> s[i] as int < 0x80
    ensures AsciiAt(EncodeAscii(s), 0, |s|) == s
  {
    var bs := EncodeAscii(s);
    forall i | 0 <= i < |s| ensures AsciiAt(bs, 0, |s|)[i] == s[i] {
      assert bs[i] as int == s[i] as int;
    }
  }

  /** 16-bit values written one after the other, big-endian. */
  function Encode16s(vs: seq<int>): (bs: seq<uint8>)
    requires forall i :: 0 <= i < |vs| ==> 0 <= vs[i] < 0x1_0000
    ensures |bs| == 2 * |vs|
  {
    seq(2 * |vs|, i requires 0 <= i < 2 * |vs| => Encode16(vs[i / 2])[i % 2])
  }

  /** An array of 16-bit values written big-endian reads back unchanged. */
  lemma U16sRoundTrip(vs: seq<int>)
    requires forall i :: 0 <= i < |vs| ==> 0 <= vs[i] < 0x1_0000
    ensures U16s(Encode16s(vs), 0, |vs|) == vs
  {
    var bs := Encode16s(vs);
    forall k | 0 <= k < |vs| ensures U16At(bs, 2 * k) == vs[k] {
      assert bs[2 * k] == Encode16(vs[k])[0] && bs[2 * k + 1] == Encode16(vs[k])[1];
      U16RoundTrip(vs[k]);
    }
  }

  /** Signed 32-bit values written one after the other as their big-endian patterns. */
  function Encode32s(vs: seq<int>): (bs: seq<uint8>)
    requires forall i :: 0 <= i < |vs| ==> IsInt32(vs[i])
    ensures |bs| == 4 * |vs|
  {
    seq(4 * |vs|, i requires 0 <= i < 4 * |vs| =>
      var v := vs[i / 4];
      assert IsInt32(v);
      Encode32(if v < 0 then v + 0x1_0000_0000 else v)[i % 4])
  }

  /** Every signed 32-bit value of such an array reads back unchanged through `GetUInt32`. */
  lemma I32sRoundTrip(vs: seq<int>, k: nat)
    requires forall i :: 0 <= i < |vs| ==> IsInt32(vs[i])
    requires k < |vs|
    ensures Readable(Encode32s(vs), 4 * k, 4) && I32At(Encode32s(vs), 4 * k) == vs[k]
  {
    var bs := Encode32s(vs);
    var v := vs[k];
    var e := Encode32(if v < 0 then v + 0x1_0000_0000 else v);
    assert bs[4 * k] == e[0] && bs[4 * k + 1] == e[1] && bs[4 * k + 2] == e[2] && bs[4 * k + 3] == e[3];
    I32RoundTrip(v);
    assert U32At(bs, 4 * k) == U32At(e, 0);
  }
}
