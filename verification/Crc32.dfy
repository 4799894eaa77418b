/** CRC-32 bit by bit, as section 8 of RFC 1952 builds it; the table form; and which corruptions it detects. */
module Crc32 {

  type byte = bv8

  function Xor(a: bv32, b: bv32): bv32 {
    a ^ b
  }

  function Widen(b: byte): bv32 {
    b as bv32
  }

  /** One step of the reflected shift register with polynomial edb88320. */
  function CrcBit(c: bv32): bv32 {
    if c & 1 == 1 then (c >> 1) ^ 0xEDB8_8320 else c >> 1
  }

  function CrcBit2(c: bv32): bv32 {
    CrcBit(CrcBit(c))
  }

  function CrcBit4(c: bv32): bv32 {
    CrcBit2(CrcBit2(c))
  }

  function CrcBit8(c: bv32): bv32 {
    CrcBit4(CrcBit4(c))
  }

  function CrcByte(c: bv32, b: byte): bv32 {
    CrcBit8(Xor(c, Widen(b)))
  }

  function CrcUpdate(c: bv32, data: seq<byte>): bv32 {
    if data == [] then c else CrcByte(CrcUpdate(c, data[..|data| - 1]), data[|data| - 1])
  }

  function ChecksumIEEE(data: seq<byte>): bv32 {
    Xor(CrcUpdate(0xFFFF_FFFF, data), 0xFFFF_FFFF)
  }

  // ---------- the register never forgets ----------

  /** Two different registers never step to the same one: the polynomial's top bit tells them apart. */
  lemma CrcBitInjective(a: bv32, b: bv32)
    requires CrcBit(a) == CrcBit(b)
    ensures a == b
  {}

  lemma CrcBit8Injective(a: bv32, b: bv32)
    requires CrcBit8(a) == CrcBit8(b)
    ensures a == b
  {
    CrcBit4Injective(CrcBit4(a), CrcBit4(b));
    CrcBit4Injective(a, b);
  }

  lemma CrcBit4Injective(a: bv32, b: bv32)
    requires CrcBit4(a) == CrcBit4(b)
    ensures a == b
  {
    CrcBit2Injective(CrcBit2(a), CrcBit2(b));
    CrcBit2Injective(a, b);
  }

  lemma CrcBit2Injective(a: bv32, b: bv32)
    requires CrcBit2(a) == CrcBit2(b)
    ensures a == b
  {
    CrcBitInjective(CrcBit(a), CrcBit(b));
    CrcBitInjective(a, b);
  }

  // ---------- high bits are only shifted ----------

  function Up1(c: bv32): bv32 {
    c << 1
  }

  function Up2(c: bv32): bv32 {
    Up1(Up1(c))
  }

  function Up4(c: bv32): bv32 {
    Up2(Up2(c))
  }

  function Up8(c: bv32): bv32 {
    Up4(Up4(c))
  }

  predicate Clear(c: bv32, mask: bv32) {
    c & mask == 0
  }

  lemma LowBitIgnoresShift(c: bv32, high: bv32)
    ensures (c ^ (high << 1)) & 1 == c & 1
  {}

  lemma ShiftOutAndIn(c: bv32, high: bv32)
    requires high & 0x8000_0000 == 0
    ensures (c ^ (high << 1)) >> 1 == (c >> 1) ^ high
  {}

  lemma XorSwap(a: bv32, b: bv32, p: bv32)
    ensures (a ^ b) ^ p == (a ^ p) ^ b
  {}

  lemma OddOrEven(c: bv32)
    ensures c & 1 == 1 || c & 1 == 0
  {}

  lemma OddShifts(c: bv32, high: bv32)
    requires high & 0x8000_0000 == 0 && c & 1 == 1
    ensures CrcBit(c ^ (high << 1)) == CrcBit(c) ^ high
  {
    LowBitIgnoresShift(c, high);
    ShiftOutAndIn(c, high);
    XorSwap(c >> 1, high, 0xEDB8_8320);
  }

  lemma CrcBitEven(c: bv32)
    requires c & 1 == 0
    ensures CrcBit(c) == c >> 1
  {}

  lemma EvenShifts(c: bv32, high: bv32)
    requires high & 0x8000_0000 == 0 && c & 1 == 0
    ensures CrcBit(c ^ (high << 1)) == CrcBit(c) ^ high
  {
    CrcBitEven(c);
    LowBitIgnoresShift(c, high);
    CrcBitEven(c ^ (high << 1));
    ShiftOutAndIn(c, high);
  }

  /** Bits above the lowest do not take part in one step; they are only shifted. */
  lemma CrcBitShifts(c: bv32, high: bv32)
    requires Clear(high, 0x8000_0000)
    ensures CrcBit(Xor(c, Up1(high))) == Xor(CrcBit(c), high)
  {
    hide CrcBit;
    OddOrEven(c);
    if c & 1 == 1 {
      OddShifts(c, high);
    } else {
      EvenShifts(c, high);
    }
  }

  lemma Room2(high: bv32)
    requires Clear(high, 0xC000_0000)
    ensures Clear(Up1(high), 0x8000_0000) && Clear(high, 0x8000_0000)
  {}

  lemma CrcBit2Shifts(c: bv32, high: bv32)
    requires Clear(high, 0xC000_0000)
    ensures CrcBit2(Xor(c, Up2(high))) == Xor(CrcBit2(c), high)
  {
    Room2(high);
    CrcBitShifts(c, Up1(high));
    CrcBitShifts(CrcBit(c), high);
  }

  lemma Room4(high: bv32)
    requires Clear(high, 0xF000_0000)
    ensures Clear(Up2(high), 0xC000_0000) && Clear(high, 0xC000_0000)
  {}

  lemma CrcBit4Shifts(c: bv32, high: bv32)
    requires Clear(high, 0xF000_0000)
    ensures CrcBit4(Xor(c, Up4(high))) == Xor(CrcBit4(c), high)
  {
    Room4(high);
    CrcBit2Shifts(c, Up2(high));
    CrcBit2Shifts(CrcBit2(c), high);
  }

  lemma Room8(high: bv32)
    requires Clear(high, 0xFF00_0000)
    ensures Clear(Up4(high), 0xF000_0000) && Clear(high, 0xF000_0000)
  {}

  /** Eight steps only shift the bits above the lowest byte. */
  lemma CrcBit8Shifts(c: bv32, high: bv32)
    requires Clear(high, 0xFF00_0000)
    ensures CrcBit8(Xor(c, Up8(high))) == Xor(CrcBit8(c), high)
  {
    Room8(high);
    CrcBit4Shifts(c, Up4(high));
    CrcBit4Shifts(CrcBit4(c), high);
  }

  function LowByte(c: bv32): bv32 {
    c & 0xFF
  }

  function Down8(c: bv32): bv32 {
    c >> 8
  }

  lemma SplitLowByte(c: bv32)
    ensures Xor(LowByte(c), Up8(Down8(c))) == c
    ensures Clear(Down8(c), 0xFF00_0000)
  {}

  /** The table form of the library refines the bitwise form: one lookup of the low byte, one shift. */
  lemma TableForm(c: bv32, b: byte)
    ensures var x := Xor(c, Widen(b)); CrcByte(c, b) == Xor(CrcBit8(LowByte(x)), Down8(x))
  {
    var x := Xor(c, Widen(b));
    SplitLowByte(x);
    CrcBit8Shifts(LowByte(x), Down8(x));
  }

  // ---------- bursts ----------

  function Up16(c: bv32): bv32 {
    Up8(Up8(c))
  }

  function Up24(c: bv32): bv32 {
    Up8(Up16(c))
  }

  lemma WordsInjective(r: bv32, a: byte, b: byte, c: byte, d: byte, a': byte, b': byte, c': byte, d': byte)
    requires Xor(Xor(Xor(Xor(r, Widen(a)), Up8(Widen(b))), Up16(Widen(c))), Up24(Widen(d)))
          == Xor(Xor(Xor(Xor(r, Widen(a')), Up8(Widen(b'))), Up16(Widen(c'))), Up24(Widen(d')))
    ensures a == a' && b == b' && c == c' && d == d'
  {}

  lemma ByteRoom(b: byte)
    ensures Clear(Widen(b), 0xFF00_0000) && Clear(Up8(Widen(b)), 0xFF00_0000) && Clear(Up16(Widen(b)), 0xFF00_0000)
  {}

  lemma Late1(r: bv32, b: byte)
    ensures Xor(CrcBit8(r), Widen(b)) == CrcBit8(Xor(r, Up8(Widen(b))))
  {
    ByteRoom(b);
    CrcBit8Shifts(r, Widen(b));
  }

  lemma Late2(r: bv32, b: byte)
    ensures Xor(CrcBit8(CrcBit8(r)), Widen(b)) == CrcBit8(CrcBit8(Xor(r, Up16(Widen(b)))))
  {
    ByteRoom(b);
    Late1(CrcBit8(r), b);
    CrcBit8Shifts(r, Up8(Widen(b)));
  }

  lemma Late3(r: bv32, b: byte)
    ensures Xor(CrcBit8(CrcBit8(CrcBit8(r))), Widen(b)) == CrcBit8(CrcBit8(CrcBit8(Xor(r, Up24(Widen(b))))))
  {
    ByteRoom(b);
    Late2(CrcBit8(r), b);
    CrcBit8Shifts(r, Up16(Widen(b)));
  }

  function Crc4(r: bv32, a: byte, b: byte, c: byte, d: byte): bv32 {
    CrcByte(CrcByte(CrcByte(CrcByte(r, a), b), c), d)
  }

  /** Four bytes act as one exclusive-or of the little-endian word they form, followed by thirty-two steps. */
  lemma FourBytesAreAWord(r: bv32, a: byte, b: byte, c: byte, d: byte)
    ensures Crc4(r, a, b, c, d)
         == CrcBit8(CrcBit8(CrcBit8(CrcBit8(Xor(Xor(Xor(Xor(r, Widen(a)), Up8(Widen(b))), Up16(Widen(c))),
             Up24(Widen(d)))))))
  {
    var x := Xor(r, Widen(a));
    Late1(x, b);
    Late2(Xor(x, Up8(Widen(b))), c);
    Late3(Xor(Xor(x, Up8(Widen(b))), Up16(Widen(c))), d);
  }

  lemma FourBytesInjective(r: bv32, a: byte, b: byte, c: byte, d: byte, a': byte, b': byte, c': byte, d': byte)
    requires Crc4(r, a, b, c, d) == Crc4(r, a', b', c', d')
    ensures a == a' && b == b' && c == c' && d == d'
  {
    FourBytesAreAWord(r, a, b, c, d);
    FourBytesAreAWord(r, a', b', c', d');
    var x := Xor(Xor(Xor(Xor(r, Widen(a)), Up8(Widen(b))), Up16(Widen(c))), Up24(Widen(d)));
    var y := Xor(Xor(Xor(Xor(r, Widen(a')), Up8(Widen(b'))), Up16(Widen(c'))), Up24(Widen(d')));
    CrcBit8Injective(CrcBit8(CrcBit8(CrcBit8(x))), CrcBit8(CrcBit8(CrcBit8(y))));
    CrcBit8Injective(CrcBit8(CrcBit8(x)), CrcBit8(CrcBit8(y)));
    CrcBit8Injective(CrcBit8(x), CrcBit8(y));
    CrcBit8Injective(x, y);
    WordsInjective(r, a, b, c, d, a', b', c', d');
  }

  lemma {:induction false} UpdateConcat(r: bv32, x: seq<byte>, y: seq<byte>)
    ensures CrcUpdate(r, x + y) == CrcUpdate(CrcUpdate(r, x), y)
  {
    hide CrcByte;
    if y == [] {
      assert x + y == x;
    } else {
      UpdateConcat(r, x, y[..|y| - 1]);
      assert (x + y)[..|x + y| - 1] == x + y[..|y| - 1];
    }
  }

  lemma UpdateOne(r: bv32, x: seq<byte>, n: nat)
    requires n < |x|
    ensures CrcUpdate(r, x[..n + 1]) == CrcByte(CrcUpdate(r, x[..n]), x[n])
  {
    hide CrcByte;
    assert x[..n + 1][..n] == x[..n];
  }

  lemma UpdateFour(r: bv32, x: seq<byte>)
    requires |x| == 4
    ensures CrcUpdate(r, x) == Crc4(r, x[0], x[1], x[2], x[3])
  {
    hide CrcByte;
    assert x[..0] == [];
    assert CrcUpdate(r, x[..0]) == r;
    hide CrcUpdate;
    UpdateOne(r, x, 0);
    UpdateOne(r, x, 1);
    UpdateOne(r, x, 2);
    UpdateOne(r, x, 3);
    assert x[..4] == x;
  }

  /** Equal tails carry a difference of registers to the end. */
  lemma {:induction false} TailInjective(r: bv32, s: bv32, tail: seq<byte>)
    requires CrcUpdate(r, tail) == CrcUpdate(s, tail)
    ensures r == s
  {
    if tail != [] {
      var init, b := tail[..|tail| - 1], tail[|tail| - 1];
      CrcBit8Injective(Xor(CrcUpdate(r, init), Widen(b)), Xor(CrcUpdate(s, init), Widen(b)));
      XorCancel(CrcUpdate(r, init), CrcUpdate(s, init), Widen(b));
      TailInjective(r, s, init);
    }
  }

  lemma XorCancel(x: bv32, y: bv32, z: bv32)
    requires Xor(x, z) == Xor(y, z)
    ensures x == y
  {}

  lemma QuadInjective(r: bv32, u: seq<byte>, v: seq<byte>)
    requires |u| == |v| == 4 && CrcUpdate(r, u) == CrcUpdate(r, v)
    ensures u == v
  {
    UpdateFour(r, u);
    UpdateFour(r, v);
    hide *;
    FourBytesInjective(r, u[0], u[1], u[2], u[3], v[0], v[1], v[2], v[3]);
  }

  /** Up to four consecutive bytes leave a register that identifies them. */
  lemma BurstInjective(r: bv32, x: seq<byte>, y: seq<byte>)
    requires |x| == |y| <= 4 && CrcUpdate(r, x) == CrcUpdate(r, y)
    ensures x == y
  {
    var pad := seq(4 - |x|, i => 0 as byte);
    UpdateConcat(r, x, pad);
    UpdateConcat(r, y, pad);
    QuadInjective(r, x + pad, y + pad);
    assert x == (x + pad)[..|x|] && y == (y + pad)[..|x|];
  }

  /** Any corruption confined to four consecutive bytes changes the checksum. */
  lemma BurstDetected(before: seq<byte>, x: seq<byte>, y: seq<byte>, after: seq<byte>)
    requires |x| == |y| <= 4 && x != y
    ensures ChecksumIEEE(before + x + after) != ChecksumIEEE(before + y + after)
  {
    if ChecksumIEEE(before + x + after) == ChecksumIEEE(before + y + after) {
      var r := CrcUpdate(0xFFFF_FFFF, before);
      XorCancel(CrcUpdate(0xFFFF_FFFF, before + x + after), CrcUpdate(0xFFFF_FFFF, before + y + after), 0xFFFF_FFFF);
      UpdateConcat(0xFFFF_FFFF, before + x, after);
      UpdateConcat(0xFFFF_FFFF, before + y, after);
      TailInjective(CrcUpdate(0xFFFF_FFFF, before + x), CrcUpdate(0xFFFF_FFFF, before + y), after);
      UpdateConcat(0xFFFF_FFFF, before, x);
      UpdateConcat(0xFFFF_FFFF, before, y);
      BurstInjective(r, x, y);
    }
  }
}
