/** Bytes, C strings and decimal numbers: what every other module is written in. */
module Bytes {
  type Byte = b: int | 0 <= b < 256
  type Text = seq<Byte>

  datatype Option<+T> = None | Some(value: T)

  const NUL: Byte := 0
  const NEWLINE: Byte := 10
  const SPACE: Byte := 32
  const PLUS: Byte := 43
  const MINUS: Byte := 45
  const DOT: Byte := 46
  const SLASH: Byte := 47
  const COLON: Byte := 58

  /** memchr: the first index of `b`, or the length when `b` does not occur. */
  function Find(s: Text, b: Byte): (i: nat)
    ensures i <= |s|
    ensures forall j | 0 <= j < i :: s[j] != b
    ensures i < |s| ==> s[i] == b
  {
    if s == [] || s[0] == b then 0 else 1 + Find(s[1..], b)
  }

  /** The bytes a C string function sees in a NUL-terminated buffer. */
  function CString(s: Text): (r: Text)
    ensures r <= s && NUL !in r
  {
    s[..Find(s, NUL)]
  }

  lemma FindIs(s: Text, b: Byte, i: nat)
    requires i <= |s|
    requires forall j | 0 <= j < i :: s[j] != b
    requires i < |s| ==> s[i] == b
    ensures Find(s, b) == i
  {
  }

  /** isspace in the C locale. */
  predicate IsSpace(b: Byte) {
    b == SPACE || 9 <= b <= 13
  }

  /** Text that fits into one field of a colon-separated line. Neither db_create_user nor the file system
      asks this of names. */
  predicate Clean(name: Text) {
    COLON !in name && NEWLINE !in name
  }

  /** memcpy to an offset: the bytes must lie inside the buffer. */
  method Memcpy(buffer: array<Byte>, offset: nat, bytes: Text)
    requires offset + |bytes| <= buffer.Length
    modifies buffer
    ensures buffer[..] == old(buffer[..offset]) + bytes + old(buffer[offset + |bytes|..])
  {
    forall i | 0 <= i < |bytes| {
      buffer[offset + i] := bytes[i];
    }
  }

  /** The field of the text at an offset. */
  predicate HasAt(s: Text, offset: nat, bytes: Text) {
    offset + |bytes| <= |s| && s[offset..offset + |bytes|] == bytes
  }

  // ----- splitting -----

  /** str.split: the pieces between separators, empty ones included. */
  function SplitOn(s: Text, sep: Byte): (pieces: seq<Text>)
    ensures |pieces| >= 1
    ensures forall c | c in pieces :: sep !in c
    decreases |s|
  {
    var i := Find(s, sep);
    if i == |s| then [s] else [s[..i]] + SplitOn(s[i + 1..], sep)
  }

  lemma SplitOnLast(s: Text, sep: Byte)
    requires sep !in s
    ensures SplitOn(s, sep) == [s]
  {
  }

  lemma SplitOnStep(s: Text, sep: Byte, i: nat)
    requires i < |s| && s[i] == sep && forall j | 0 <= j < i :: s[j] != sep
    ensures SplitOn(s, sep) == [s[..i]] + SplitOn(s[i + 1..], sep)
  {
    FindIs(s, sep, i);
  }

  lemma {:induction false} SplitOnConcat(a: Text, b: Text, sep: Byte)
    ensures SplitOn(a + [sep] + b, sep) == SplitOn(a, sep) + SplitOn(b, sep)
    decreases |a|
  {
    hide SplitOn;
    var s := a + [sep] + b;
    var i := Find(a, sep);
    SplitOnStep(s, sep, i);
    assert s[..i] == a[..i];
    if i == |a| {
      SplitOnLast(a, sep);
      assert s[i + 1..] == b && a[..i] == a;
    } else {
      SplitOnStep(a, sep, i);
      assert s[i + 1..] == a[i + 1..] + [sep] + b;
      SplitOnConcat(a[i + 1..], b, sep);
      assert [a[..i]] + SplitOn(a[i + 1..], sep) + SplitOn(b, sep)
          == [a[..i]] + (SplitOn(a[i + 1..], sep) + SplitOn(b, sep));
    }
  }

  // ----- decimal numbers -----

  predicate IsDigit(b: Byte) {
    48 <= b <= 57
  }

  predicate AllDigits(s: Text) {
    forall i | 0 <= i < |s| :: IsDigit(s[i])
  }

  /** "%d" of a non-negative number. */
  function Decimal(n: nat): (s: Text)
    ensures |s| >= 1 && AllDigits(s)
    ensures n < 10 ==> s == [48 + n]
    ensures 10 <= n ==> |s| >= 2
  {
    if n < 10 then [48 + n] else Decimal(n / 10) + [48 + n % 10]
  }

  function DigitsValue(s: Text): nat
    requires AllDigits(s)
  {
    if s == [] then 0 else DigitsValue(s[..|s| - 1]) * 10 + (s[|s| - 1] - 48)
  }

  lemma {:induction false} DecimalValue(n: nat)
    ensures DigitsValue(Decimal(n)) == n
  {
    if n >= 10 {
      DecimalValue(n / 10);
      assert Decimal(n)[..|Decimal(n)| - 1] == Decimal(n / 10);
    } else {
      assert DigitsValue([48 + n][..0]) == 0;
    }
  }

  /** The length of the longest run of digits at the start of `s`. */
  function DigitRun(s: Text): (k: nat)
    ensures k <= |s| && AllDigits(s[..k])
    ensures k < |s| ==> !IsDigit(s[k])
  {
    if s == [] || !IsDigit(s[0]) then 0 else
      var k := 1 + DigitRun(s[1..]);
      assert forall i | 0 <= i < k :: s[..k][i] == if i == 0 then s[0] else s[1..][..k - 1][i - 1];
      k
  }

  lemma DigitRunIs(s: Text, k: nat)
    requires k <= |s| && AllDigits(s[..k])
    requires k < |s| ==> !IsDigit(s[k])
    ensures DigitRun(s) == k
  {
    if k > 0 {
      assert s[..k][0] == s[0];
      assert s[1..][..k - 1] == s[..k][1..];
      DigitRunIs(s[1..], k - 1);
    }
  }
}
