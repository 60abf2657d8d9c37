/** The hexadecimal codec of server_crypto.c and of the "%02x" loops around it. */
module Hex {
  import opened Bytes

  function HexDigit(d: nat): Byte
    requires d < 16
  {
    if d < 10 then 48 + d else 87 + d
  }

  /** The value sscanf gives a hexadecimal character, in either case. */
  function DigitValue(b: Byte): Option<nat> {
    if 48 <= b <= 57 then Some(b - 48)
    else if 97 <= b <= 102 then Some(b - 87)
    else if 65 <= b <= 70 then Some(b - 55)
    else None
  }

  /** "%02x" of every byte, one after the other. */
  function Print(bytes: Text): (s: Text)
    ensures |s| == 2 * |bytes|
  {
    seq(2 * |bytes|, i requires 0 <= i < 2 * |bytes| =>
      if i % 2 == 0 then HexDigit(bytes[i / 2] / 16) else HexDigit(bytes[i / 2] % 16))
  }

  lemma PrintSnoc(bytes: Text, b: Byte)
    ensures Print(bytes + [b]) == Print(bytes) + [HexDigit(b / 16), HexDigit(b % 16)]
  {
  }

  lemma PrintHasOnlyHexDigits(bytes: Text)
    ensures forall i | 0 <= i < |Print(bytes)| ::
      var c := Print(bytes)[i]; 48 <= c <= 57 || 97 <= c <= 102
  {
  }

  // ----- sscanf(&s[i], "%2hhx") -----

  datatype Scan = Value(b: Byte) | NoMatch | EndOfInput

  function SkipSpaces(s: Text, i: nat): (j: nat)
    requires i <= |s|
    ensures i <= j <= |s|
    ensures j < |s| ==> !IsSpace(s[j])
    decreases |s| - i
  {
    if i < |s| && IsSpace(s[i]) then SkipSpaces(s, i + 1) else i
  }

  function ScanByte(s: Text, i: nat): Scan
    requires i <= |s|
  {
    var j := SkipSpaces(s, i);
    if j == |s| then EndOfInput
    else if s[j] == PLUS || s[j] == MINUS then
      if j + 1 < |s| && DigitValue(s[j + 1]).Some? then
        var d := DigitValue(s[j + 1]).value;
        Value(if s[j] == PLUS then d else (256 - d) % 256)
      else NoMatch
    else
      match DigitValue(s[j])
      case None => NoMatch
      case Some(hi) =>
        if j + 1 < |s| && DigitValue(s[j + 1]).Some? then Value(16 * hi + DigitValue(s[j + 1]).value)
        else Value(hi)
  }

  /** `Stuck` is the loop that never advances: sscanf returned 0. */
  datatype Result = Decoded(bytes: Text) | Failed | Stuck

  function DecodeFrom(s: Text, i: nat, acc: Text): Result
    decreases |s| - i
  {
    if i >= |s| then Decoded(acc)
    else match ScanByte(s, i)
      case Value(b) => DecodeFrom(s, i + 2, acc + [b])
      case EndOfInput => Failed
      case NoMatch => Stuck
  }

  function Decode(s: Text): (r: Result)
    ensures r.Decoded? ==> |s| % 2 == 0 && |s| > 0
  {
    if s == [] || |s| % 2 != 0 then Failed else DecodeFrom(s, 0, [])
  }

  /** Every turn decodes one byte from two characters. */
  lemma {:induction false} DecodedLength(s: Text, i: nat, acc: Text)
    requires i <= |s| && (|s| - i) % 2 == 0
    ensures var r := DecodeFrom(s, i, acc); r.Decoded? ==> 2 * |r.bytes| == 2 * |acc| + |s| - i
    decreases |s| - i
  {
    hide ScanByte;
    if i < |s| && ScanByte(s, i).Value? {
      DecodedLength(s, i + 2, acc + [ScanByte(s, i).b]);
    }
  }

  lemma ScanPrinted(before: Text, bytes: Text, k: nat)
    requires k < |bytes|
    ensures ScanByte(before + Print(bytes), |before| + 2 * k) == Value(bytes[k])
  {
    var s := before + Print(bytes);
    var b, i := bytes[k], |before| + 2 * k;
    assert s[i] == Print(bytes)[2 * k] == HexDigit(b / 16);
    assert s[i + 1] == Print(bytes)[2 * k + 1] == HexDigit(b % 16);
  }

  /** From any printed part on, the loop appends the bytes that were printed. */
  lemma {:induction false} DecodePrintFrom(before: Text, acc: Text, bytes: Text, k: nat)
    requires k <= |bytes|
    ensures DecodeFrom(before + Print(bytes), |before| + 2 * k, acc + bytes[..k]) == Decoded(acc + bytes)
    decreases |bytes| - k
  {
    hide ScanByte, Print;
    if k == |bytes| {
      assert bytes[..k] == bytes;
    } else {
      ScanPrinted(before, bytes, k);
      assert acc + bytes[..k] + [bytes[k]] == acc + bytes[..k + 1];
      assert |before| + 2 * k + 2 == |before| + 2 * (k + 1);
      DecodePrintFrom(before, acc, bytes, k + 1);
    }
  }

  /** Reading back what "%02x" printed gives the same bytes. */
  lemma DecodePrint(bytes: Text)
    requires bytes != []
    ensures Decode(Print(bytes)) == Decoded(bytes)
  {
    hide Print, ScanByte, DecodeFrom;
    DecodePrintFrom([], [], bytes, 0);
    assert [] + Print(bytes) == Print(bytes);
    assert [] + bytes[..0] == [] && [] + bytes == bytes;
  }

  // ----- upper case -----

  /** The same text, with some of the letters "a" to "f" as capitals. */
  ghost predicate SameHex(s: Text, t: Text) {
    |s| == |t| && forall i | 0 <= i < |s| :: t[i] == s[i] || (97 <= s[i] <= 102 && t[i] == s[i] - 32)
  }

  lemma {:induction false} SkipAnyCase(s: Text, t: Text, i: nat)
    requires SameHex(s, t) && i <= |s|
    ensures SkipSpaces(t, i) == SkipSpaces(s, i)
    decreases |s| - i
  {
    if i < |s| && IsSpace(s[i]) {
      SkipAnyCase(s, t, i + 1);
    }
  }

  lemma ScanAnyCase(s: Text, t: Text, i: nat)
    requires SameHex(s, t) && i <= |s|
    ensures ScanByte(t, i) == ScanByte(s, i)
  {
    SkipAnyCase(s, t, i);
  }

  lemma {:induction false} DecodeFromAnyCase(s: Text, t: Text, i: nat, acc: Text)
    requires SameHex(s, t)
    ensures DecodeFrom(t, i, acc) == DecodeFrom(s, i, acc)
    decreases |s| - i
  {
    hide ScanByte;
    if i < |s| {
      ScanAnyCase(s, t, i);
      if ScanByte(s, i).Value? {
        DecodeFromAnyCase(s, t, i + 2, acc + [ScanByte(s, i).b]);
      }
    }
  }

  /** The hexadecimal text of a non-empty array is read back in any case; half a byte or nothing is refused. */
  lemma DecodeAnyCase(bytes: Text, t: Text)
    requires SameHex(Print(bytes), t)
    ensures bytes != [] ==> Decode(t) == Decoded(bytes)
    ensures bytes == [] ==> Decode(t) == Failed
    ensures forall b :: Decode(t + [b]) == Failed
  {
    hide Print, DecodeFrom;
    if bytes != [] {
      DecodePrint(bytes);
      DecodeFromAnyCase(Print(bytes), t, 0, []);
    }
  }

  /** hex_char_to_byte_array. The source's loop does not end on text that leaves sscanf without a
      match, so this is what it asks of its callers. */
  method HexCharToByteArray(hash: Text) returns (r: Option<Text>)
    requires !Decode(hash).Stuck?
    ensures r == match Decode(hash) case Decoded(bytes) => Some(bytes) case _ => None
  {
    if |hash| == 0 {
      return None;
    }
    if |hash| % 2 != 0 {
      return None;
    }
    var byteArray := new Byte[|hash| / 2](_ => 0);
    var strIdx, barrIdx := 0, 0;
    while strIdx < |hash|
      invariant strIdx == 2 * barrIdx && barrIdx <= byteArray.Length
      invariant DecodeFrom(hash, strIdx, byteArray[..barrIdx]) == Decode(hash)
    {
      match ScanByte(hash, strIdx) {
        case Value(b) =>
          byteArray[barrIdx] := b;
          assert byteArray[..barrIdx + 1] == byteArray[..barrIdx] + [b];
          strIdx, barrIdx := strIdx + 2, barrIdx + 1;
        case EndOfInput =>
          return None;
        case NoMatch =>
          assert false;
      }
    }
    return Some(byteArray[..barrIdx]);
  }
}
