/** Byte order: struct.pack's big-endian fields, and the hand-written 64-bit swap of utils.c. */
module ByteOrder {
  import opened Bytes

  /** The `width` low bytes of n, most significant first. */
  function Be(n: nat, width: nat): (s: Text)
    ensures |s| == width
  {
    if width == 0 then [] else Be(n / 256, width - 1) + [n % 256]
  }

  function FromBe(s: Text): nat {
    if s == [] then 0 else FromBe(s[..|s| - 1]) * 256 + s[|s| - 1]
  }

  function Pow256(k: nat): (p: nat)
    ensures p > 0
  {
    if k == 0 then 1 else 256 * Pow256(k - 1)
  }

  lemma {:induction false} FromBeOfBe(n: nat, width: nat)
    requires n < Pow256(width)
    ensures FromBe(Be(n, width)) == n
  {
    if width > 0 {
      FromBeOfBe(n / 256, width - 1);
      assert Be(n, width)[..width - 1] == Be(n / 256, width - 1);
    }
  }

  lemma {:induction false} BeOfFromBe(s: Text)
    ensures Be(FromBe(s), |s|) == s
  {
    if s != [] {
      BeOfFromBe(s[..|s| - 1]);
      assert s == s[..|s| - 1] + [s[|s| - 1]];
    }
  }

  lemma {:induction false} FromBeBound(s: Text)
    ensures FromBe(s) < Pow256(|s|)
  {
    if s != [] {
      FromBeBound(s[..|s| - 1]);
    }
  }

  lemma Widths()
    ensures Pow256(1) == 0x100
    ensures Pow256(2) == 0x1_0000
    ensures Pow256(4) == 0x1_0000_0000
    ensures Pow256(8) == 0x1_0000_0000_0000_0000
  {
    assert Pow256(2) == 256 * Pow256(1);
    assert Pow256(3) == 256 * Pow256(2);
    assert Pow256(4) == 256 * Pow256(3);
    assert Pow256(5) == 256 * Pow256(4);
    assert Pow256(6) == 256 * Pow256(5);
    assert Pow256(7) == 256 * Pow256(6);
  }

  lemma BeLast(n: nat, width: nat)
    ensures Be(n, width + 1) == Be(n / 256, width) + [n % 256] && Be(n, 0) == []
  {
  }

  lemma DivTwice(n: nat)
    ensures n / 0x100 / 0x100 == n / 0x1_0000
    ensures n / 0x1_0000 / 0x100 == n / 0x100_0000
    ensures n / 0x100_0000 / 0x100 == n / 0x1_0000_0000
  {
  }

  lemma BeFour(n: nat, width: nat)
    ensures Be(n, width + 4) == Be(n / 0x1_0000_0000, width)
      + [n / 0x100_0000 % 256, n / 0x1_0000 % 256, n / 0x100 % 256, n % 256]
  {
    hide Be;
    DivTwice(n);
    BeLast(n, width + 3);
    BeLast(n / 0x100, width + 2);
    BeLast(n / 0x1_0000, width + 1);
    BeLast(n / 0x100_0000, width);
  }

  /** The bytes of the fields, written out. */
  lemma BeBytes(n: nat)
    ensures Be(n, 2) == [n / 0x100 % 256, n % 256]
    ensures Be(n, 4) == [n / 0x100_0000 % 256, n / 0x1_0000 % 256, n / 0x100 % 256, n % 256]
    ensures Be(n, 8) == Be(n / 0x1_0000_0000, 4) + Be(n, 4)
  {
    hide Be;
    BeLast(n, 1);
    BeLast(n / 0x100, 0);
    BeFour(n, 0);
    BeLast(n / 0x1_0000_0000, 0);
    BeFour(n, 4);
  }

  // ----- swap_byte_order, on a little-endian machine -----

  function SwapByteOrder(val: bv64): bv64 {
    var a := ((val << 8) & 0xFF00FF00FF00FF00) | ((val >> 8) & 0x00FF00FF00FF00FF);
    var b := ((a << 16) & 0xFFFF0000FFFF0000) | ((a >> 16) & 0x0000FFFF0000FFFF);
    (b << 32) | (b >> 32)
  }

  function LowByte(val: bv64): bv8 {
    (val & 0xff) as bv8
  }

  /** The eight bytes of a uint64_t in the memory of a little-endian machine. */
  function Image(val: bv64): seq<bv8> {
    [LowByte(val), LowByte(val >> 8), LowByte(val >> 16), LowByte(val >> 24),
     LowByte(val >> 32), LowByte(val >> 40), LowByte(val >> 48), LowByte(val >> 56)]
  }

  lemma SwapIsItsOwnInverse(val: bv64)
    ensures SwapByteOrder(SwapByteOrder(val)) == val
  {
  }

  lemma SwapReversesImage(val: bv64)
    ensures var m := Image(val);
            Image(SwapByteOrder(val)) == [m[7], m[6], m[5], m[4], m[3], m[2], m[1], m[0]]
  {
    SwappedBytes(val);
    hide SwapByteOrder, LowByte;
  }

  lemma SwappedBytes(val: bv64)
    ensures var w := SwapByteOrder(val);
      && LowByte(w) == LowByte(val >> 56) && LowByte(w >> 8) == LowByte(val >> 48)
      && LowByte(w >> 16) == LowByte(val >> 40) && LowByte(w >> 24) == LowByte(val >> 32)
      && LowByte(w >> 32) == LowByte(val >> 24) && LowByte(w >> 40) == LowByte(val >> 16)
      && LowByte(w >> 48) == LowByte(val >> 8) && LowByte(w >> 56) == LowByte(val)
  {
  }

  function Reversed(s: Text): (r: Text)
    ensures |r| == |s|
    ensures forall i | 0 <= i < |s| :: r[i] == s[|s| - 1 - i]
  {
    seq(|s|, i requires 0 <= i < |s| => s[|s| - 1 - i])
  }

  /** The memory image as numbers. */
  function Memory(val: bv64): (s: Text)
    ensures |s| == 8
  {
    var m := Image(val);
    [m[0] as int, m[1] as int, m[2] as int, m[3] as int, m[4] as int, m[5] as int, m[6] as int, m[7] as int]
  }

  lemma SwapReversesMemory(val: bv64)
    ensures Memory(SwapByteOrder(val)) == Reversed(Memory(val))
    ensures Reversed(Memory(SwapByteOrder(val))) == Memory(val)
  {
    SwapReversesImage(val);
    hide SwapByteOrder, Image;
  }

  /** The number a uint64_t stands for: its memory read from the last byte to the first. */
  function Number(val: bv64): nat {
    FromBe(Reversed(Memory(val)))
  }

  /** What htonll leaves in memory is the big-endian encoding of the number, which is what "!Q" reads. */
  lemma HtonllIsBigEndian(val: bv64)
    ensures Memory(SwapByteOrder(val)) == Be(Number(val), 8)
  {
    SwapReversesMemory(val);
    hide SwapByteOrder, Memory;
    BeOfFromBe(Reversed(Memory(val)));
  }

  /** Eight wire bytes copied into a uint64_t and passed through ntohll give the number "!Q" packed. */
  lemma NtohllReadsBigEndian(val: bv64)
    ensures Number(SwapByteOrder(val)) == FromBe(Memory(val))
  {
    SwapReversesMemory(val);
    hide SwapByteOrder, Memory;
  }
}
