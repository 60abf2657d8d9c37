/** Python's str.encode("utf-8"): only ASCII text has as many bytes as characters. */
module Utf8 {
  import opened Bytes

  function EncodeChar(c: char): (s: Text)
    ensures 1 <= |s| <= 4
    ensures |s| == 1 <==> c as int < 0x80
  {
    var n := c as int;
    if n < 0x80 then [n]
    else if n < 0x800 then [0xC0 + n / 0x40, 0x80 + n % 0x40]
    else if n < 0x1_0000 then [0xE0 + n / 0x1000, 0x80 + n / 0x40 % 0x40, 0x80 + n % 0x40]
    else [0xF0 + n / 0x4_0000, 0x80 + n / 0x1000 % 0x40, 0x80 + n / 0x40 % 0x40, 0x80 + n % 0x40]
  }

  function Encode(s: string): Text {
    if s == [] then [] else EncodeChar(s[0]) + Encode(s[1..])
  }

  /** The code point of one sequence, as section 3 of RFC 3629 lays out its bits. */
  function CodePoint(s: Text): int
    requires 1 <= |s| <= 4
  {
    var a: int, b: int, c: int, d: int :=
      s[0], if |s| > 1 then s[1] else 0, if |s| > 2 then s[2] else 0, if |s| > 3 then s[3] else 0;
    if |s| == 1 then a
    else if |s| == 2 then (a - 0xC0) * 0x40 + (b - 0x80)
    else if |s| == 3 then (a - 0xE0) * 0x1000 + (b - 0x80) * 0x40 + (c - 0x80)
    else (a - 0xF0) * 0x4_0000 + (b - 0x80) * 0x1000 + (c - 0x80) * 0x40 + (d - 0x80)
  }

  /** A character is encoded as its code point, the first byte tells the length, and the others continue it. */
  lemma CharIsDecoded(c: char)
    ensures var s := EncodeChar(c);
      && CodePoint(s) == c as int
      && (forall i | 1 <= i < |s| :: 0x80 <= s[i] < 0xC0)
      && (|s| == 1 <==> s[0] < 0x80) && (|s| == 2 <==> 0xC0 <= s[0] < 0xE0)
      && (|s| == 3 <==> 0xE0 <= s[0] < 0xF0) && (|s| == 4 <==> 0xF0 <= s[0])
  {
    var n := c as int;
    if n >= 0x1_0000 {
      DigitsOf64(n);
    } else if n >= 0x800 {
      assert n == n / 0x1000 * 0x1000 + n / 0x40 % 0x40 * 0x40 + n % 0x40;
    }
  }

  lemma DigitsOf64(n: nat)
    ensures n == n / 0x4_0000 * 0x4_0000 + n / 0x1000 % 0x40 * 0x1000 + n / 0x40 % 0x40 * 0x40 + n % 0x40
  {
    SixBits(n);
    SixBits(n / 0x40);
    SixBits(n / 0x1000);
  }

  lemma SixBits(n: nat)
    ensures n == n / 0x40 * 0x40 + n % 0x40
    ensures n / 0x40 / 0x40 == n / 0x1000 && n / 0x1000 / 0x40 == n / 0x4_0000
  {
  }

  predicate IsAscii(s: string) {
    forall i | 0 <= i < |s| :: s[i] as int < 0x80
  }

  /** len(str) is the number of bytes sent exactly for ASCII text. */
  lemma {:induction false} LengthIffAscii(s: string)
    ensures |Encode(s)| >= |s|
    ensures |Encode(s)| == |s| <==> IsAscii(s)
  {
    if s != [] {
      LengthIffAscii(s[1..]);
      assert IsAscii(s) <==> s[0] as int < 0x80 && IsAscii(s[1..]) by {
        assert s == [s[0]] + s[1..];
      }
    }
  }
}
