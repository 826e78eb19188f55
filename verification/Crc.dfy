/** The nibble-table CRC of the js2x boards (board-js2x/rtas/rtas_out.c, board-js2x/llfw/stage2.c) against
    polynomial division by x^32 + 0x04C11DB7. */
module Crc {

  type Word = bv32

  /** A byte, as the code promotes it. */
  type Octet = x: Word | x < 0x100

  function Xor(x: Word, y: Word): Word { x ^ y }

  // ----- polynomial division, bit by bit

  /** A polynomial of degree below 32, times x, modulo the generator. */
  function TimesX(r: Word): Word { Xor(r << 1, Reduction(TopBit(r))) }

  predicate TopBit(r: Word) { r & 0x8000_0000 != 0 }

  function Reduction(carry: bool): Word { if carry then 0x04C11DB7 else 0 }

  /** The remainder of r * x^n + b(x), where the n bits are the coefficients of b from the highest one on: every
      step brings down one bit of the dividend. */
  function Divide(r: Word, bits: seq<bool>): Word {
    if bits == [] then r
    else Xor(TimesX(Divide(r, bits[..|bits| - 1])), if bits[|bits| - 1] then 1 else 0)
  }

  function Zeros(n: nat): (s: seq<bool>)
    ensures |s| == n
  {
    seq(n, _ => false)
  }

  /** The bits of a byte string, highest bit of each byte first. */
  function ByteBits(v: Word, n: nat): (s: seq<bool>)
    ensures |s| == n
  {
    if n == 0 then [] else ByteBits(v >> 1, n - 1) + [v & 1 != 0]
  }

  function Bits(m: seq<Octet>): (s: seq<bool>)
    ensures |s| == 8 * |m|
  {
    var eight: nat := 8;
    if m == [] then [] else Bits(m[..|m| - 1]) + ByteBits(m[|m| - 1], eight)
  }

  /** The CRC of a message and a start value: the remainder of start * x^n + m(x) * x^32. */
  function Remainder(m: seq<Octet>, start: Word): Word {
    Xor(Divide(start, Zeros(8 * |m|)), Divide(0, Bits(m) + Zeros(32)))
  }

  // ----- the tables

  /** CrcTableHigh. */
  function High(n: Word): Word {
    if n == 0 then 0x00000000 else if n == 1 then 0x4C11DB70 else
    if n == 2 then 0x9823B6E0 else if n == 3 then 0xD4326D90 else
    if n == 4 then 0x34867077 else if n == 5 then 0x7897AB07 else
    if n == 6 then 0xACA5C697 else if n == 7 then 0xE0B41DE7 else
    if n == 8 then 0x690CE0EE else if n == 9 then 0x251D3B9E else
    if n == 10 then 0xF12F560E else if n == 11 then 0xBD3E8D7E else
    if n == 12 then 0x5D8A9099 else if n == 13 then 0x119B4BE9 else if n == 14 then 0xC5A92679 else 0x89B8FD09
  }

  /** CrcTableLow. */
  function Low(n: Word): Word {
    if n == 0 then 0x00000000 else if n == 1 then 0x04C11DB7 else
    if n == 2 then 0x09823B6E else if n == 3 then 0x0D4326D9 else
    if n == 4 then 0x130476DC else if n == 5 then 0x17C56B6B else
    if n == 6 then 0x1A864DB2 else if n == 7 then 0x1E475005 else
    if n == 8 then 0x2608EDB8 else if n == 9 then 0x22C9F00F else
    if n == 10 then 0x2F8AD6D6 else if n == 11 then 0x2B4BCB61 else
    if n == 12 then 0x350C9B64 else if n == 13 then 0x31CD86D3 else if n == 14 then 0x3C8EA00A else 0x384FBDBD
  }

  function Shl4(x: Word): Word { x << 4 }
  function Shl8(x: Word): Word { x << 8 }
  function Shl24(x: Word): Word { x << 24 }
  function Top4(x: Word): Word { x >> 28 }

  /** The byte that leaves the register, as two table indices. */
  function Temp(crc: Word, v: Octet): Word { ((crc >> 24) ^ v) & 0xff }
  function Quotient16(x: Word): Word { x / 16 }
  function Remainder16(x: Word): Word { x % 16 }

  /** One turn of the loop of check_flash_image. */
  function TableStep(crc: Word, v: Octet): Word {
    var temp := Temp(crc, v);
    Xor(Xor(Shl8(crc), High(Quotient16(temp))), Low(Remainder16(temp)))
  }

  function Crc(m: seq<Octet>, start: Word): Word {
    if m == [] then start else TableStep(Crc(m[..|m| - 1], start), m[|m| - 1])
  }

  /** check_flash_image. */
  method CheckFlashImage(image: seq<Octet>, start: Word) returns (crc: Word)
    ensures crc == Crc(image, start)
  {
    hide High, Low;
    crc := start;
    var i := 0;
    while i < |image|
      invariant 0 <= i <= |image| && crc == Crc(image[..i], start)
    {
      assert image[..i + 1][..i] == image[..i];
      crc := TableStep(crc, image[i]);
      i := i + 1;
    }
    assert image[..i] == image;
  }

  // ----- linearity

  function TimesX4(r: Word): Word { TimesX(TimesX(TimesX(TimesX(r)))) }
  function TimesX8(r: Word): Word { TimesX4(TimesX4(r)) }

  lemma XorAssociates(a: Word, b: Word, c: Word)
    ensures Xor(Xor(a, b), c) == Xor(a, Xor(b, c))
  {
  }

  lemma XorCommutes(a: Word, b: Word)
    ensures Xor(a, b) == Xor(b, a)
  {
  }

  lemma XorSwaps(a: Word, b: Word, c: Word, d: Word)
    ensures Xor(Xor(a, b), Xor(c, d)) == Xor(Xor(a, c), Xor(b, d))
  {
    hide Xor;
    XorAssociates(a, b, Xor(c, d));
    XorAssociates(b, c, d);
    XorCommutes(b, c);
    XorAssociates(c, b, d);
    XorAssociates(a, c, Xor(b, d));
  }

  lemma ShiftedXor(x: Word, y: Word, z: Word, w: Word)
    requires z == x ^ y && w == (x << 1) ^ (y << 1)
    ensures z << 1 == w
  {
  }

  lemma ShiftIsLinear(x: Word, y: Word)
    ensures Xor(x, y) << 1 == Xor(x << 1, y << 1)
  {
    ShiftedXor(x, y, Xor(x, y), Xor(x << 1, y << 1));
  }

  lemma TopOfXor(x: Word, y: Word, z: Word)
    requires z == x ^ y
    ensures (z & 0x8000_0000 != 0) == ((x & 0x8000_0000 != 0) != (y & 0x8000_0000 != 0))
  {
  }

  lemma TopBits(x: Word, y: Word)
    ensures TopBit(Xor(x, y)) == (TopBit(x) != TopBit(y))
  {
    TopOfXor(x, y, Xor(x, y));
  }

  lemma Reductions(a: bool, b: bool)
    ensures Xor(Reduction(a), Reduction(b)) == Reduction(a != b)
  {
  }

  lemma ReductionIsLinear(x: Word, y: Word)
    ensures Reduction(TopBit(Xor(x, y))) == Xor(Reduction(TopBit(x)), Reduction(TopBit(y)))
  {
    hide Xor, TopBit, Reduction;
    TopBits(x, y);
    Reductions(TopBit(x), TopBit(y));
  }

  lemma TimesXIsLinear(x: Word, y: Word)
    ensures TimesX(Xor(x, y)) == Xor(TimesX(x), TimesX(y))
  {
    hide Xor, TopBit, Reduction;
    ShiftIsLinear(x, y);
    ReductionIsLinear(x, y);
    XorSwaps(x << 1, y << 1, Reduction(TopBit(x)), Reduction(TopBit(y)));
  }

  lemma TimesX4IsLinear(x: Word, y: Word)
    ensures TimesX4(Xor(x, y)) == Xor(TimesX4(x), TimesX4(y))
  {
    hide TimesX, Xor;
    TimesXIsLinear(x, y);
    TimesXIsLinear(TimesX(x), TimesX(y));
    TimesXIsLinear(TimesX(TimesX(x)), TimesX(TimesX(y)));
    TimesXIsLinear(TimesX(TimesX(TimesX(x))), TimesX(TimesX(TimesX(y))));
  }

  lemma TimesX8IsLinear(x: Word, y: Word)
    ensures TimesX8(Xor(x, y)) == Xor(TimesX8(x), TimesX8(y))
  {
    hide TimesX4, Xor;
    TimesX4IsLinear(x, y);
    TimesX4IsLinear(TimesX4(x), TimesX4(y));
  }

  /** Four steps reduce the top nibble by the low table. */
  lemma TimesX4IsTable(r: Word)
    ensures TimesX4(r) == Xor(Shl4(r), Low(Top4(r)))
  {
    hide TimesX4, Xor, Low;
    var hi, lo := (r >> 28) << 28, r & 0x0fff_ffff;
    Halves(r);
    TimesX4IsLinear(lo, hi);
    NoReduction(lo);
    OneNibble(r >> 28);
  }

  lemma Halves(r: Word)
    ensures r == Xor(r & 0x0fff_ffff, (r >> 28) << 28) && (r & 0x0fff_ffff) << 4 == r << 4 && r >> 28 < 16
  {
  }

  lemma NoReduction(r: Word)
    requires r < 0x1000_0000
    ensures TimesX4(r) == r << 4
  {
  }

  lemma OneNibble(n: Word)
    requires n < 16
    ensures TimesX4(n << 28) == Low(n)
  {
  }

  /** The high table reduces a nibble by four more steps. */
  lemma HighIsTimesX4(n: Word)
    requires n < 16
    ensures High(n) == TimesX4(Low(n))
  {
    hide TimesX4, Xor, Shl4, Top4, High, Low;
    TimesX4IsTable(Low(n));
    HighIsLow(n);
  }

  lemma HighIsLow(n: Word)
    requires n < 16
    ensures High(n) == Xor(Shl4(Low(n)), Low(Top4(Low(n))))
  {
  }

  // ----- the table step is eight steps of the division

  lemma TempBits(crc: Word, v: Word, x: Word, y: Word, t: Word)
    requires x == Shl24(v) && y == Xor(crc, x) && v < 0x100 && t == Temp(crc, v)
    ensures y << 8 == crc << 8 && t >> 4 == y >> 28 && t & 15 == (y << 4) >> 28
  {
  }

  lemma DivisionBits(t: Word)
    ensures Quotient16(t) == t >> 4 && Remainder16(t) == t & 15
  {
  }

  lemma TempShifts(crc: Word, v: Octet, y: Word)
    requires y == Xor(crc, Shl24(v))
    ensures y << 8 == crc << 8 && Temp(crc, v) >> 4 == y >> 28 && Temp(crc, v) & 15 == (y << 4) >> 28
  {
    hide Xor, Shl24, Temp;
    TempBits(crc, v, Shl24(v), y, Temp(crc, v));
  }

  lemma SameQuotient(t: Word, y: Word)
    requires t >> 4 == y >> 28
    ensures Quotient16(t) == Top4(y)
  {
    hide Quotient16;
    DivisionBits(t);
  }

  lemma SameRemainder(t: Word, y: Word)
    requires t & 15 == (y << 4) >> 28
    ensures Remainder16(t) == Top4(Shl4(y))
  {
    hide Remainder16;
    DivisionBits(t);
  }

  lemma SameShift(x: Word, y: Word)
    requires x << 8 == y << 8
    ensures Shl8(x) == Shl8(y)
  {
  }

  lemma TempIs(crc: Word, v: Octet, y: Word)
    requires y == Xor(crc, Shl24(v))
    ensures Shl8(y) == Shl8(crc) && Quotient16(Temp(crc, v)) == Top4(y) && Remainder16(Temp(crc, v)) == Top4(Shl4(y))
  {
    hide Xor, Shl4, Shl8, Shl24, Temp, Quotient16, Remainder16, Top4;
    TempShifts(crc, v, y);
    SameQuotient(Temp(crc, v), y);
    SameRemainder(Temp(crc, v), y);
    SameShift(y, crc);
  }

  lemma NibbleOf(y: Word)
    ensures Top4(y) < 16 && Shl4(Shl4(y)) == Shl8(y)
  {
  }

  lemma TableStepIs(crc: Word, v: Octet)
    ensures TableStep(crc, v) == TimesX8(Xor(crc, Shl24(v)))
  {
    hide Xor, High, Low, TimesX4, Shl4, Shl8, Shl24, Top4, Temp, Quotient16, Remainder16;
    var y := Xor(crc, Shl24(v));
    TempIs(crc, v, y);
    NibbleOf(y);
    TimesX4IsTable(y);
    TimesX4IsLinear(Shl4(y), Low(Top4(y)));
    TimesX4IsTable(Shl4(y));
    HighIsTimesX4(Top4(y));
    XorAssociates(Shl8(y), Low(Top4(Shl4(y))), High(Top4(y)));
    XorCommutes(Low(Top4(Shl4(y))), High(Top4(y)));
    XorAssociates(Shl8(y), High(Top4(y)), Low(Top4(Shl4(y))));
  }

  // ----- the division

  /** One step of the division: bring down one bit. */
  function Down(r: Word, bit: bool): Word { Xor(TimesX(r), if bit then 1 else 0) }

  lemma DivideOne(r: Word, bits: seq<bool>, b: bool)
    ensures Divide(r, bits + [b]) == Down(Divide(r, bits), b)
  {
    assert (bits + [b])[..|bits|] == bits;
  }

  lemma {:induction false} DivideAppends(r: Word, a: seq<bool>, b: seq<bool>)
    ensures Divide(r, a + b) == Divide(Divide(r, a), b)
    decreases |b|
  {
    hide TimesX, Xor;
    if b == [] {
      assert a + b == a;
    } else {
      var n := |b| - 1;
      assert (a + b)[..|a| + n] == a + b[..n];
      DivideAppends(r, a, b[..n]);
    }
  }

  function XorBits(a: seq<bool>, b: seq<bool>): (c: seq<bool>)
    requires |a| == |b|
    ensures |c| == |a| && forall i :: 0 <= i < |a| ==> c[i] == (a[i] != b[i])
  {
    seq(|a|, i requires 0 <= i < |a| => a[i] != b[i])
  }

  lemma OneBits(p: bool, q: bool)
    ensures Xor(if p then 1 else 0, if q then 1 else 0) == if p != q then 1 else 0
  {
  }

  lemma {:induction false} DivideIsLinear(r: Word, t: Word, a: seq<bool>, b: seq<bool>)
    requires |a| == |b|
    ensures Divide(Xor(r, t), XorBits(a, b)) == Xor(Divide(r, a), Divide(t, b))
    decreases |a|
  {
    hide TimesX, Xor, XorBits;
    if a != [] {
      var n := |a| - 1;
      var x, y := Divide(r, a[..n]), Divide(t, b[..n]);
      assert XorBits(a, b)[..n] == XorBits(a[..n], b[..n]);
      DivideIsLinear(r, t, a[..n], b[..n]);
      TimesXIsLinear(x, y);
      OneBits(a[n], b[n]);
      XorSwaps(TimesX(x), TimesX(y), if a[n] then 1 else 0, if b[n] then 1 else 0);
    }
  }

  lemma XorZero(r: Word)
    ensures Xor(r, 0) == r && Xor(0, r) == r && Xor(r, r) == 0
  {
  }

  /** Eight zero bits multiply the remainder by x^8. */
  lemma DivideEightZeros(r: Word, bits: seq<bool>)
    ensures Divide(r, bits + Zeros(8)) == TimesX8(Divide(r, bits))
  {
    hide Divide, TimesX, Xor;
    DivideFourZeros(r, bits);
    DivideFourZeros(r, bits + Zeros(4));
    assert bits + Zeros(4) + Zeros(4) == bits + Zeros(8);
  }

  lemma DivideFourZeros(r: Word, bits: seq<bool>)
    ensures Divide(r, bits + Zeros(4)) == TimesX4(Divide(r, bits))
  {
    hide Divide, TimesX, Xor;
    var b1, b2, b3 := bits + [false], bits + [false] + [false], bits + [false] + [false] + [false];
    assert bits + Zeros(4) == b3 + [false];
    DivideOne(r, bits, false);
    DivideOne(r, b1, false);
    DivideOne(r, b2, false);
    DivideOne(r, b3, false);
    var d := Divide(r, bits);
    XorZero(TimesX(d));
    XorZero(TimesX(TimesX(d)));
    XorZero(TimesX(TimesX(TimesX(d))));
    XorZero(TimesX(TimesX(TimesX(TimesX(d)))));
  }

  lemma {:induction false} DivideZeros(n: nat)
    ensures Divide(0, Zeros(n)) == 0
  {
    hide TimesX, Xor;
    if n > 0 {
      assert Zeros(n)[..n - 1] == Zeros(n - 1);
      DivideZeros(n - 1);
      ZeroTimesX();
      XorZero(0);
    }
  }

  lemma ZeroTimesX()
    ensures TimesX(0) == 0
  {
  }

  /** The value has at most `n` bits. */
  predicate Fits(v: Word, n: nat) { if n == 0 then v == 0 else Fits(v >> 1, n - 1) }

  lemma OctetFits(v: Octet)
    ensures Fits(v, 8)
  {
    var w1, w2, w3, w4 := v >> 1, (v >> 1) >> 1, ((v >> 1) >> 1) >> 1, (((v >> 1) >> 1) >> 1) >> 1;
    EightShifts(v);
    assert Fits((((w4 >> 1) >> 1) >> 1) >> 1, 0);
    assert Fits(((w4 >> 1) >> 1) >> 1, 1);
    assert Fits((w4 >> 1) >> 1, 2);
    assert Fits(w4 >> 1, 3);
    assert Fits(w4, 4);
    assert Fits(w3, 5);
    assert Fits(w2, 6);
    assert Fits(w1, 7);
  }

  lemma EightShifts(v: Word)
    requires v < 0x100
    ensures (((((((v >> 1) >> 1) >> 1) >> 1) >> 1) >> 1) >> 1) >> 1 == 0
  {
  }

  lemma DownBits(v: Word)
    ensures Down(v >> 1, v & 1 != 0) == v
  {
    hide Xor;
    var h, one: Word := v >> 1, if v & 1 != 0 then 1 else 0;
    NoTopBit(v);
    XorZero(h << 1);
    DownVars(v, h, one, Xor(h << 1, one));
  }

  lemma NoTopBit(v: Word)
    ensures !TopBit(v >> 1)
  {
  }

  lemma DownVars(v: Word, h: Word, one: Word, z: Word)
    requires h == v >> 1 && one == (if v & 1 != 0 then 1 else 0) && z == Xor(h << 1, one)
    ensures z == v
  {
  }

  /** Dividing the bits of a short value brings it down unchanged. */
  lemma {:induction false} DivideBits(v: Word, n: nat)
    requires Fits(v, n)
    ensures Divide(0, ByteBits(v, n)) == v
  {
    hide Down;
    if n > 0 {
      DivideBits(v >> 1, n - 1);
      DivideOne(0, ByteBits(v >> 1, n - 1), v & 1 != 0);
      DownBits(v);
    }
  }

  // ----- the table-driven CRC is the remainder

  lemma NoReduction8(r: Word)
    requires r < 0x0100_0000
    ensures TimesX8(r) == Shl8(r)
  {
    hide TimesX4;
    FourThenFour(r);
    NoReduction(r);
    NoReduction(r << 4);
  }

  lemma FourThenFour(r: Word)
    requires r < 0x0100_0000
    ensures r << 4 < 0x1000_0000 && (r << 4) << 4 == Shl8(r)
  {
  }

  lemma OctetShifts(v: Octet)
    ensures Shl8(v) < 0x0100_0000 && Shl8(Shl8(v)) < 0x0100_0000 && Shl8(Shl8(Shl8(v))) == Shl24(v)
  {
  }

  /** A byte in front of 32 zero bits. */
  lemma DivideOctet(v: Octet)
    ensures Divide(0, ByteBits(v, 8) + Zeros(32)) == TimesX8(Shl24(v))
  {
    hide TimesX8, Divide, ByteBits, Shl8, Shl24, Fits;
    OctetFits(v);
    DivideBits(v, 8);
    DivideAppends(0, ByteBits(v, 8), Zeros(32));
    assert [] + Zeros(8) == Zeros(8);
    assert Zeros(8) + Zeros(8) == Zeros(16) && Zeros(16) + Zeros(8) == Zeros(24) && Zeros(24) + Zeros(8) == Zeros(32);
    DivideNothing(v);
    DivideEightZeros(v, []);
    DivideEightZeros(v, Zeros(8));
    DivideEightZeros(v, Zeros(16));
    DivideEightZeros(v, Zeros(24));
    OctetShifts(v);
    NoReduction8(v);
    NoReduction8(Shl8(v));
    NoReduction8(Shl8(Shl8(v)));
  }

  lemma DivideNothing(r: Word)
    ensures Divide(r, []) == r
  {
  }

  /** One more message byte, in the division. */
  lemma DivideMessage(a: seq<bool>, v: Octet)
    ensures Divide(0, a + ByteBits(v, 8) + Zeros(32)) == Xor(TimesX8(Divide(0, a + Zeros(32))), TimesX8(Shl24(v)))
  {
    hide TimesX8, Divide, ByteBits, Shl24, Xor;
    var p, q := a + Zeros(32) + Zeros(8), Zeros(|a|) + (ByteBits(v, 8) + Zeros(32));
    assert XorBits(p, q) == a + ByteBits(v, 8) + Zeros(32);
    DivideIsLinear(0, 0, p, q);
    XorZero(0);
    DivideEightZeros(0, a + Zeros(32));
    DivideAppends(0, Zeros(|a|), ByteBits(v, 8) + Zeros(32));
    DivideZeros(|a|);
    DivideOctet(v);
  }

  /** The nibble-table CRC equals bit-by-bit polynomial division, for every message and start value. */
  lemma {:induction false} CrcIsRemainder(m: seq<Octet>, start: Word)
    ensures Crc(m, start) == Remainder(m, start)
  {
    hide TimesX8, Divide, ByteBits, Shl24, Xor, TableStep, Bits;
    if m == [] {
      BitsOfNothing();
      assert [] + Zeros(32) == Zeros(32) && Zeros(0) == [];
      DivideZeros(32);
      DivideNothing(start);
      XorZero(start);
    } else {
      var m0, v := m[..|m| - 1], m[|m| - 1];
      var a, b := Divide(start, Zeros(8 * |m0|)), Divide(0, Bits(m0) + Zeros(32));
      CrcIsRemainder(m0, start);
      TableStepIs(Xor(a, b), v);
      TimesX8IsLinear(Xor(a, b), Shl24(v));
      TimesX8IsLinear(a, b);
      XorAssociates(TimesX8(a), TimesX8(b), TimesX8(Shl24(v)));
      DivideEightZeros(start, Zeros(8 * |m0|));
      assert Zeros(8 * |m0|) + Zeros(8) == Zeros(8 * |m|);
      DivideMessage(Bits(m0), v);
      BitsOfMore(m);
    }
  }

  lemma BitsOfNothing()
    ensures Bits([]) == []
  {
  }

  lemma BitsOfMore(m: seq<Octet>)
    requires m != []
    ensures Bits(m) == Bits(m[..|m| - 1]) + ByteBits(m[|m| - 1], 8)
  {
  }

  // ----- how the result is used

  /** The CRC of a concatenation continues with the CRC of the first part. */
  lemma {:induction false} CrcAppends(a: seq<Octet>, b: seq<Octet>, start: Word)
    ensures Crc(a + b, start) == Crc(b, Crc(a, start))
    decreases |b|
  {
    hide TableStep;
    if b == [] {
      assert a + b == a;
    } else {
      assert (a + b)[..|a + b| - 1] == a + b[..|b| - 1];
      CrcAppends(a, b[..|b| - 1], start);
    }
  }

  lemma ZeroOnly(r: Word, z: Word)
    requires z == TimesX(r) && z == 0
    ensures r == 0
  {
  }

  lemma TimesXIsInjective(r: Word)
    ensures TimesX(r) == 0 ==> r == 0
  {
    if TimesX(r) == 0 { ZeroOnly(r, TimesX(r)); }
  }

  lemma TimesX8IsInjective(x: Word, y: Word)
    ensures TimesX8(x) == TimesX8(y) ==> x == y
  {
    hide TimesX, Xor;
    var r := Xor(x, y);
    TimesX8IsLinear(x, y);
    XorZero(TimesX8(x));
    XorIsZero(x, y, r);
    TimesXIsInjective(r);
    TimesXIsInjective(TimesX(r));
    TimesXIsInjective(TimesX(TimesX(r)));
    TimesXIsInjective(TimesX(TimesX(TimesX(r))));
    var s := TimesX4(r);
    TimesXIsInjective(s);
    TimesXIsInjective(TimesX(s));
    TimesXIsInjective(TimesX(TimesX(s)));
    TimesXIsInjective(TimesX(TimesX(TimesX(s))));
  }

  lemma XorIsZero(x: Word, y: Word, r: Word)
    requires r == Xor(x, y)
    ensures r == 0 ==> x == y
  {
  }

  /** A table step ends in a value with a low byte of 0 exactly from one value. */
  lemma StepBack(crc: Word, v: Octet, u: Word)
    requires u < 0x0100_0000
    ensures TableStep(crc, v) == Shl8(u) <==> crc == Xor(Shl24(v), u)
  {
    hide TableStep, TimesX8, Xor, Shl8, Shl24;
    TableStepIs(crc, v);
    NoReduction8(u);
    TimesX8IsInjective(Xor(crc, Shl24(v)), u);
    XorMoves(crc, Shl24(v), u, Xor(crc, Shl24(v)), Xor(Shl24(v), u));
  }

  lemma XorMoves(a: Word, b: Word, c: Word, ab: Word, bc: Word)
    requires ab == Xor(a, b) && bc == Xor(b, c)
    ensures ab == c <==> a == bc
  {
    hide Xor;
    XorCommutes(a, b);
    XorZero(b);
    XorZero(a);
    XorZero(c);
    if ab == c {
      XorAssociates(a, b, b);
      XorCommutes(b, c);
    }
    if a == bc {
      XorAssociates(b, b, c);
    }
  }

  function Byte3(c: Word): Octet { c >> 24 }
  function Byte2(c: Word): Octet { (c >> 16) & 0xff }
  function Byte1(c: Word): Octet { (c >> 8) & 0xff }
  function Byte0(c: Word): Octet { c & 0xff }

  /** A word as four bytes, big-endian. */
  function Octets(c: Word): seq<Octet> { [Byte3(c), Byte2(c), Byte1(c), Byte0(c)] }

  lemma FourSteps(w: seq<Octet>, crc: Word)
    requires |w| == 4
    ensures Crc(w, crc) == TableStep(TableStep(TableStep(TableStep(crc, w[0]), w[1]), w[2]), w[3])
  {
    hide TableStep;
    var w3, w2, w1 := w[..3], w[..2], w[..1];
    assert w[..|w| - 1] == w3 && w3[..|w3| - 1] == w2 && w2[..|w2| - 1] == w1 && w1[..|w1| - 1] == [];
    assert Crc(w1, crc) == TableStep(Crc([], crc), w[0]);
    assert Crc(w2, crc) == TableStep(Crc(w1, crc), w[1]);
    assert Crc(w3, crc) == TableStep(Crc(w2, crc), w[2]);
  }

  /** Four bytes bring the register to 0 exactly if they are its contents. */
  lemma FourBytesBack(w: seq<Octet>, crc: Word)
    requires |w| == 4
    ensures Crc(w, crc) == 0 <==> w == Octets(crc)
  {
    hide TableStep, Xor, Shl8, Shl24, Octets, Crc, Part1, Part2, Part3, Byte3, Byte2, Byte1, Byte0;
    var c1 := TableStep(crc, w[0]);
    var c2 := TableStep(c1, w[1]);
    var c3 := TableStep(c2, w[2]);
    FourSteps(w, crc);
    var u1, u2, u3 := Part1(w[3]), Part2(w[2], w[3]), Part3(w[1], w[2], w[3]);
    PartsAreShort(w[1], w[2], w[3]);
    NextPart1(w[3], Shl24(w[3]), Xor(Shl24(w[3]), 0));
    NextPart2(w[2], w[3], u1, Shl24(w[2]), Xor(Shl24(w[2]), u1));
    NextPart3(w[1], w[2], w[3], u2, Shl24(w[1]), Xor(Shl24(w[1]), u2));
    WholeWord(w[0], w[1], w[2], w[3], crc, u3, Shl24(w[0]), Xor(Shl24(w[0]), u3));
    StepBack(c3, w[3], 0);
    StepBack(c2, w[2], u1);
    StepBack(c1, w[1], u2);
    StepBack(crc, w[0], u3);
    SameOctets(w, crc);
  }

  function Part1(d: Octet): Word { d << 16 }
  function Part2(c: Octet, d: Octet): Word { (c << 16) ^ (d << 8) }
  function Part3(b: Octet, c: Octet, d: Octet): Word { (b << 16) ^ ((c << 8) ^ d) }

  lemma PartsAreShort(b: Octet, c: Octet, d: Octet)
    ensures Part1(d) < 0x0100_0000 && Part2(c, d) < 0x0100_0000 && Part3(b, c, d) < 0x0100_0000
    ensures Shl8(0) == 0
  {
  }

  lemma NextPart1(d: Octet, x: Word, y: Word)
    requires x == Shl24(d) && y == Xor(x, 0)
    ensures y == Shl8(Part1(d))
  {
  }

  lemma NextPart2(c: Octet, d: Octet, p: Word, x: Word, y: Word)
    requires p == Part1(d) && x == Shl24(c) && y == Xor(x, p)
    ensures y == Shl8(Part2(c, d))
  {
  }

  lemma NextPart3(b: Octet, c: Octet, d: Octet, p: Word, x: Word, y: Word)
    requires p == Part2(c, d) && x == Shl24(b) && y == Xor(x, p)
    ensures y == Shl8(Part3(b, c, d))
  {
  }

  lemma HighBytes(a: Octet, b: Octet, c: Octet, d: Octet, p: Word, x: Word, y: Word)
    requires p == Part3(b, c, d) && x == Shl24(a) && y == Xor(x, p)
    ensures Byte3(y) == a && Byte2(y) == b
  {
  }

  lemma LowBytes(a: Octet, b: Octet, c: Octet, d: Octet, p: Word, x: Word, y: Word)
    requires p == Part3(b, c, d) && x == Shl24(a) && y == Xor(x, p)
    ensures Byte1(y) == c && Byte0(y) == d
  {
  }

  lemma SameBytes(x: Word, y: Word)
    requires Byte3(x) == Byte3(y) && Byte2(x) == Byte2(y) && Byte1(x) == Byte1(y) && Byte0(x) == Byte0(y)
    ensures x == y
  {
  }

  lemma WholeWord(a: Octet, b: Octet, c: Octet, d: Octet, crc: Word, p: Word, x: Word, y: Word)
    requires p == Part3(b, c, d) && x == Shl24(a) && y == Xor(x, p)
    ensures crc == y <==> a == Byte3(crc) && b == Byte2(crc) && c == Byte1(crc) && d == Byte0(crc)
  {
    hide Part3, Shl24, Xor, Byte3, Byte2, Byte1, Byte0;
    HighBytes(a, b, c, d, p, x, y);
    LowBytes(a, b, c, d, p, x, y);
    if a == Byte3(crc) && b == Byte2(crc) && c == Byte1(crc) && d == Byte0(crc) {
      SameBytes(crc, y);
    }
  }

  lemma SameOctets(w: seq<Octet>, crc: Word)
    requires |w| == 4
    ensures w == Octets(crc) <==>
            w[0] == Byte3(crc) && w[1] == Byte2(crc) && w[2] == Byte1(crc) && w[3] == Byte0(crc)
  {
    hide Byte3, Byte2, Byte1, Byte0;
  }

  /** The boot check: an image has CRC 0 exactly if its last four bytes are the big-endian CRC of the rest. */
  lemma ImageCheck(image: seq<Octet>, start: Word)
    requires |image| >= 4
    ensures var n := |image| - 4;
            Crc(image, start) == 0 <==> image[n..] == Octets(Crc(image[..n], start))
  {
    hide Crc, Octets;
    var n := |image| - 4;
    assert image == image[..n] + image[n..];
    CrcAppends(image[..n], image[n..], start);
    FourBytesBack(image[n..], Crc(image[..n], start));
  }
}
