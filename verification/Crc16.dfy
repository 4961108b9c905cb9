/** CRC-16/IBM-3740 as common/sml.c computes it: a nibble at a time, from a
    16-entry table. Bit-vectors stay inside this module. */
module Crc16 {
  import opened MachineWords

  const CRC_INIT: u16 := 0xFFFF

  // The source's table, entry by entry.
  function Nibble(n: bv16): bv16 {
    if n == 0 then 0x0000 else if n == 1 then 0x1021 else
    if n == 2 then 0x2042 else if n == 3 then 0x3063 else
    if n == 4 then 0x4084 else if n == 5 then 0x50A5 else
    if n == 6 then 0x60C6 else if n == 7 then 0x70E7 else
    if n == 8 then 0x8108 else if n == 9 then 0x9129 else
    if n == 10 then 0xA14A else if n == 11 then 0xB16B else
    if n == 12 then 0xC18C else if n == 13 then 0xD1AD else
    if n == 14 then 0xE1CE else 0xF1EF
  }

  function NibbleStep(crc: bv16): bv16 {
    (crc << 4) ^ Nibble(crc >> 12)
  }

  function ByteStep(crc: bv16, b: bv16): bv16 {
    NibbleStep(NibbleStep(crc ^ (b << 8)))
  }

  function Xor(a: bv16, b: bv16): bv16 {
    a ^ b
  }

  function Up(a: bv16): bv16 {
    a << 1
  }

  predicate Top(a: bv16) {
    a >> 15 == 1
  }

  // The polynomial 0x1021, unreflected, a bit at a time: the standard's definition.
  function BitStep(crc: bv16): bv16 {
    Xor(Up(crc), if Top(crc) then 0x1021 else 0)
  }

  function FourBits(crc: bv16): bv16 {
    BitStep(BitStep(BitStep(BitStep(crc))))
  }

  lemma NibbleIsFourBits(crc: bv16)
    ensures NibbleStep(crc) == FourBits(crc)
  {
    var n := crc >> 12;
    if n == 0 {} else if n == 1 {} else if n == 2 {} else if n == 3 {}
    else if n == 4 {} else if n == 5 {} else if n == 6 {} else if n == 7 {}
    else if n == 8 {} else if n == 9 {} else if n == 10 {} else if n == 11 {}
    else if n == 12 {} else if n == 13 {} else if n == 14 {} else {}
  }

  /** The table-driven byte step divides by the standard's polynomial, for
      every register and byte. */
  lemma ByteIsEightBits(crc: bv16, b: bv16)
    ensures ByteStep(crc, b) == FourBits(FourBits(crc ^ (b << 8)))
  {
    hide NibbleStep, FourBits;
    NibbleIsFourBits(crc ^ (b << 8));
    NibbleIsFourBits(NibbleStep(crc ^ (b << 8)));
  }

  function CrcByte(crc: u16, b: u8): u16 {
    ByteStep(crc as bv16, b as bv16) as int
  }

  /** sml_crc() over a whole block. */
  function CrcBytes(crc: u16, data: seq<u8>): u16
    decreases |data|
  {
    if |data| == 0 then crc else CrcByte(CrcBytes(crc, data[..|data| - 1]), data[|data| - 1])
  }

  /** Constants, worked out. Used for the one CRC the store knows in advance: a
      page header whose second double word is still erased. */
  lemma TornHeaderBytes()
    ensures CrcByte(0xFFFF, 0x54) == 0xFB81
    ensures CrcByte(0xFB81, 0x53) == 0xB5E2
    ensures CrcByte(0xB5E2, 0x01) == 0x055F
    ensures CrcByte(0x055F, 0x00) == 0x0FA5
    ensures CrcByte(0x0FA5, 0xFF) == 0x4A1F
    ensures CrcByte(0x4A1F, 0xFF) == 0xE87E
  {
    ByteSteps();
    hide ByteStep;
    assert 0xFFFF as bv16 == 0xFFFF && 0x54 as bv16 == 0x54 && 0xFB81 as bv16 == 0xFB81;
    assert 0x53 as bv16 == 0x53 && 0xB5E2 as bv16 == 0xB5E2 && 0x01 as bv16 == 0x01;
    assert 0x055F as bv16 == 0x055F && 0x00 as bv16 == 0x00 && 0x0FA5 as bv16 == 0x0FA5;
    assert 0xFF as bv16 == 0xFF && 0x4A1F as bv16 == 0x4A1F;
  }

  lemma ByteSteps()
    ensures ByteStep(0xFFFF, 0x54) == 0xFB81 && ByteStep(0xFB81, 0x53) == 0xB5E2
    ensures ByteStep(0xB5E2, 0x01) == 0x055F && ByteStep(0x055F, 0x00) == 0x0FA5
    ensures ByteStep(0x0FA5, 0xFF) == 0x4A1F && ByteStep(0x4A1F, 0xFF) == 0xE87E
  {
  }

  // ---- The whole message ------------------------------------------------------

  /** A bit of the message taken in: the standard's division, in series. */
  function SerialBit(crc: bv16, bit: bool): bv16 {
    Xor(Up(crc), if Top(crc) != bit then 0x1021 else 0)
  }

  function Serial(crc: bv16, bits: seq<bool>): bv16 {
    if bits == [] then crc else SerialBit(Serial(crc, bits[..|bits| - 1]), bits[|bits| - 1])
  }

  /** A byte, most significant bit first. */
  function Bits(b: bv16): (bits: seq<bool>)
    ensures |bits| == 8
  {
    [(b >> 7) & 1 == 1, (b >> 6) & 1 == 1, (b >> 5) & 1 == 1, (b >> 4) & 1 == 1,
     (b >> 3) & 1 == 1, (b >> 2) & 1 == 1, (b >> 1) & 1 == 1, b & 1 == 1]
  }

  function AllBits(data: seq<u8>): (bits: seq<bool>)
    ensures |bits| == 8 * |data|
  {
    if data == [] then [] else AllBits(data[..|data| - 1]) + Bits(data[|data| - 1] as bv16)
  }

  lemma {:induction false} SerialMore(crc: bv16, a: seq<bool>, b: seq<bool>)
    ensures Serial(crc, a + b) == Serial(Serial(crc, a), b)
  {
    hide SerialBit;
    if b == [] {
      assert a + b == a;
    } else {
      assert (a + b)[..|a + b| - 1] == a + b[..|b| - 1];
      SerialMore(crc, a, b[..|b| - 1]);
    }
  }

  lemma XorUp(a: bv16, b: bv16)
    ensures Up(Xor(a, b)) == Xor(Up(a), Up(b))
  {
  }

  lemma XorTop(a: bv16, b: bv16)
    ensures Top(Xor(a, b)) == (Top(a) != Top(b))
  {
  }

  lemma XorSwap(a: bv16, b: bv16, c: bv16)
    ensures Xor(Xor(a, b), c) == Xor(Xor(a, c), b)
  {
  }

  // What is still to be taken in is xored onto the register.
  lemma BitIsSerial(crc: bv16, rest: bv16)
    ensures BitStep(Xor(crc, rest)) == Xor(SerialBit(crc, Top(rest)), Up(rest))
  {
    hide Xor, Up, Top;
    XorUp(crc, rest);
    XorTop(crc, rest);
    XorSwap(Up(crc), Up(rest), if Top(crc) != Top(rest) then 0x1021 else 0);
  }

  function FourSerial(crc: bv16, rest: bv16): bv16 {
    SerialBit(SerialBit(SerialBit(SerialBit(crc, Top(rest)), Top(Up(rest))), Top(Up(Up(rest)))), Top(Up(Up(Up(rest)))))
  }

  lemma FourAreSerial(crc: bv16, rest: bv16)
    ensures FourBits(Xor(crc, rest)) == Xor(FourSerial(crc, rest), Up(Up(Up(Up(rest)))))
  {
    hide BitStep, SerialBit, Xor, Up, Top;
    var c1 := SerialBit(crc, Top(rest));
    var c2 := SerialBit(c1, Top(Up(rest)));
    var c3 := SerialBit(c2, Top(Up(Up(rest))));
    BitIsSerial(crc, rest);
    BitIsSerial(c1, Up(rest));
    BitIsSerial(c2, Up(Up(rest)));
    BitIsSerial(c3, Up(Up(Up(rest))));
  }

  lemma ByteIsSerial(crc: bv16, b: bv16)
    requires b < 0x100
    ensures FourBits(FourBits(Xor(crc, b << 8))) == FourSerial(FourSerial(crc, b << 8), b << 12)
  {
    hide FourBits, FourSerial, Xor, Up;
    var half := FourSerial(crc, b << 8);
    FourAreSerial(crc, b << 8);
    UpFour(b);
    FourAreSerial(half, b << 12);
    XorZero(FourSerial(half, b << 12));
  }

  lemma UpFour(b: bv16)
    requires b < 0x100
    ensures Up(Up(Up(Up(b << 8)))) == b << 12 && Up(Up(Up(Up(b << 12)))) == 0
  {
  }

  lemma XorZero(a: bv16)
    ensures Xor(a, 0) == a
  {
  }

  lemma TopBits(b: bv16)
    requires b < 0x100
    ensures Bits(b) == [Top(b << 8), Top(Up(b << 8)), Top(Up(Up(b << 8))), Top(Up(Up(Up(b << 8)))),
                        Top(b << 12), Top(Up(b << 12)), Top(Up(Up(b << 12))), Top(Up(Up(Up(b << 12))))]
  {
    HighBits(b);
    LowBits(b);
    hide Top, Up;
  }

  lemma HighBits(b: bv16)
    requires b < 0x100
    ensures Top(b << 8) == ((b >> 7) & 1 == 1) && Top(Up(b << 8)) == ((b >> 6) & 1 == 1)
    ensures Top(Up(Up(b << 8))) == ((b >> 5) & 1 == 1) && Top(Up(Up(Up(b << 8)))) == ((b >> 4) & 1 == 1)
  {
  }

  lemma LowBits(b: bv16)
    requires b < 0x100
    ensures Top(b << 12) == ((b >> 3) & 1 == 1) && Top(Up(b << 12)) == ((b >> 2) & 1 == 1)
    ensures Top(Up(Up(b << 12))) == ((b >> 1) & 1 == 1) && Top(Up(Up(Up(b << 12)))) == (b & 1 == 1)
  {
  }

  lemma SerialNext(crc: bv16, s: seq<bool>, k: nat)
    requires k < |s|
    ensures Serial(crc, s[..k + 1]) == SerialBit(Serial(crc, s[..k]), s[k])
    ensures Serial(crc, s[..0]) == crc
  {
    hide SerialBit;
    assert s[..k + 1][..k] == s[..k];
  }

  lemma Eight(crc: bv16, s: seq<bool>)
    requires |s| == 8
    ensures Serial(crc, s) == SerialBit(SerialBit(SerialBit(SerialBit(SerialBit(SerialBit(SerialBit(SerialBit(crc,
              s[0]), s[1]), s[2]), s[3]), s[4]), s[5]), s[6]), s[7])
  {
    hide SerialBit, Serial;
    assert s[..8] == s;
    SerialNext(crc, s, 0);
    SerialNext(crc, s, 1);
    SerialNext(crc, s, 2);
    SerialNext(crc, s, 3);
    SerialNext(crc, s, 4);
    SerialNext(crc, s, 5);
    SerialNext(crc, s, 6);
    SerialNext(crc, s, 7);
  }

  lemma ByteTakenIn(crc: bv16, b: bv16)
    requires b < 0x100
    ensures ByteStep(crc, b) == Serial(crc, Bits(b))
  {
    hide FourBits, SerialBit, Serial, Bits, ByteStep, Top, Up;
    ByteIsEightBits(crc, b);
    XorIs(crc, b << 8);
    ByteIsSerial(crc, b);
    TopBits(b);
    Eight(crc, Bits(b));
  }

  lemma XorIs(a: bv16, b: bv16)
    ensures Xor(a, b) == a ^ b
  {
  }

  /** Over a whole message the CRC is the standard's serial division of all of its
      bits, in the order sent, from the register started with. */
  lemma {:induction false} CrcIsSerial(crc: u16, data: seq<u8>)
    ensures CrcBytes(crc, data) as bv16 == Serial(crc as bv16, AllBits(data))
  {
    hide ByteStep, SerialBit, Bits;
    if data != [] {
      var n := |data| - 1;
      CrcIsSerial(crc, data[..n]);
      var before := CrcBytes(crc, data[..n]);
      SerialMore(crc as bv16, AllBits(data[..n]), Bits(data[n] as bv16));
      ByteFits(data[n]);
      ByteTakenIn(before as bv16, data[n] as bv16);
      Back(before, data[n]);
    }
  }

  lemma ByteFits(b: u8)
    ensures b as bv16 < 0x100
  {
  }

  lemma Back(crc: u16, b: u8)
    ensures CrcByte(crc, b) as bv16 == ByteStep(crc as bv16, b as bv16)
  {
    hide ByteStep;
  }

  // ---- Every byte counts ---------------------------------------------------------

  // A step can be taken back: the polynomial's last bit tells whether it was added.
  function Unstep(crc: bv16): bv16 {
    if crc & 1 == 1 then ((crc ^ 0x1021) >> 1) | 0x8000 else crc >> 1
  }

  lemma Undone(x: bv16)
    ensures Unstep(BitStep(x)) == x
  {
    if Top(x) {
      OddUndone(x);
    } else {
      EvenUndone(x);
    }
  }

  lemma OddUndone(x: bv16)
    requires x >> 15 == 1
    ensures ((x << 1) ^ 0x1021) & 1 == 1 && ((((x << 1) ^ 0x1021) ^ 0x1021) >> 1) | 0x8000 == x
  {
  }

  lemma EvenUndone(x: bv16)
    requires x >> 15 != 1
    ensures ((x << 1) ^ 0) & 1 != 1 && ((x << 1) ^ 0) >> 1 == x
  {
  }

  lemma BitApart(x: bv16, y: bv16)
    requires BitStep(x) == BitStep(y)
    ensures x == y
  {
    hide BitStep, Unstep;
    Undone(x);
    Undone(y);
  }

  lemma FourApart(x: bv16, y: bv16)
    requires FourBits(x) == FourBits(y)
    ensures x == y
  {
    hide BitStep;
    BitApart(BitStep(BitStep(BitStep(x))), BitStep(BitStep(BitStep(y))));
    BitApart(BitStep(BitStep(x)), BitStep(BitStep(y)));
    BitApart(BitStep(x), BitStep(y));
    BitApart(x, y);
  }

  lemma ByteApart(x: bv16, y: bv16, b: bv16, c: bv16)
    requires b < 0x100 && c < 0x100 && ByteStep(x, b) == ByteStep(y, c)
    ensures x == y <==> b == c
  {
    hide ByteStep, FourBits, Xor, Shifted;
    ByteIs(x, b);
    ByteIs(y, c);
    FourApart(FourBits(Xor(x, Shifted(b))), FourBits(Xor(y, Shifted(c))));
    FourApart(Xor(x, Shifted(b)), Xor(y, Shifted(c)));
    XorBack(x, Shifted(b));
    XorBack(y, Shifted(c));
    ShiftedBack(b);
    ShiftedBack(c);
  }

  // A byte, above a register.
  function Shifted(b: bv16): bv16 {
    b << 8
  }

  function Unshifted(b: bv16): bv16 {
    b >> 8
  }

  lemma ShiftedBack(b: bv16)
    requires b < 0x100
    ensures Unshifted(Shifted(b)) == b
  {
  }

  lemma ByteIs(crc: bv16, b: bv16)
    ensures ByteStep(crc, b) == FourBits(FourBits(Xor(crc, Shifted(b))))
  {
    hide FourBits, ByteStep;
    ByteIsEightBits(crc, b);
  }

  lemma XorBack(a: bv16, b: bv16)
    ensures Xor(Xor(a, b), b) == a && Xor(Xor(a, b), a) == b
  {
  }

  lemma CrcByteApart(x: u16, y: u16, b: u8, c: u8)
    requires CrcByte(x, b) == CrcByte(y, c)
    ensures x == y <==> b == c
  {
    hide ByteStep;
    ByteFits(b);
    ByteFits(c);
    Back(x, b);
    Back(y, c);
    ByteApart(x as bv16, y as bv16, b as bv16, c as bv16);
    Same(x);
    Same(y);
    Same(b);
    Same(c);
  }

  // A word and its bit-vector are the same number, bit by bit.
  function Vector(x: u16): bv16 {
    x as bv16
  }

  function Number(v: bv16): u16 {
    v as int
  }

  function WithBit(v: bv16, low: nat): bv16 {
    if low == 0 then v << 1 else (v << 1) | 1
  }

  lemma Same(x: u16)
    ensures (x as bv16) as int == x
  {
    NumberOf(x);
  }

  lemma {:induction false} NumberOf(x: u16)
    ensures Number(Vector(x)) == x
  {
    hide Vector, Number, WithBit;
    if x == 0 {
      Zero();
    } else {
      var half: u16 := x / 2;
      NumberOf(half);
      Twice(Vector(half), x % 2);
      VectorOf(WithBit(Vector(half), x % 2));
    }
  }

  lemma Zero()
    ensures Number(Vector(0)) == 0
  {
    assert 0 as bv16 == 0;
  }

  lemma Twice(v: bv16, low: nat)
    requires Number(v) < 0x8000 && low < 2
    ensures Number(WithBit(v, low)) == 2 * Number(v) + low
  {
    Doubled(v);
  }

  lemma VectorOf(v: bv16)
    ensures Vector(Number(v)) == v
  {
    WordBack(v);
  }

  lemma Doubled(v: bv16)
    ensures v as int < 0x8000 ==> (v << 1) as int == 2 * (v as int) && ((v << 1) | 1) as int == 2 * (v as int) + 1
  {
    Below(v);
    if v < 0x8000 {
      DoubledEven(v);
      DoubledOdd(v);
    }
  }

  lemma Below(v: bv16)
    ensures v < 0x8000 <==> v as int < 0x8000
  {
  }

  lemma DoubledEven(v: bv16)
    requires v < 0x8000
    ensures (v << 1) as int == 2 * (v as int)
  {
  }

  lemma DoubledOdd(v: bv16)
    requires v < 0x8000
    ensures ((v << 1) | 1) as int == 2 * (v as int) + 1
  {
  }

  lemma WordBack(v: bv16)
    ensures (v as int) as bv16 == v
  {
  }

  /** A message with one byte changed, any one, has another CRC. */
  lemma {:induction false} OneByteCounts(crc: u16, data: seq<u8>, i: nat, b: u8)
    requires i < |data| && b != data[i]
    ensures CrcBytes(crc, data[i := b]) != CrcBytes(crc, data)
  {
    hide CrcByte;
    var n := |data| - 1;
    if i == n {
      assert data[i := b][..n] == data[..n];
      if CrcBytes(crc, data[i := b]) == CrcBytes(crc, data) {
        CrcByteApart(CrcBytes(crc, data[..n]), CrcBytes(crc, data[..n]), b, data[n]);
      }
    } else {
      assert data[i := b][..n] == data[..n][i := b];
      OneByteCounts(crc, data[..n], i, b);
      if CrcBytes(crc, data[i := b]) == CrcBytes(crc, data) {
        CrcByteApart(CrcBytes(crc, data[..n][i := b]), CrcBytes(crc, data[..n]), data[n], data[n]);
      }
    }
  }

  // ---- Published values -------------------------------------------------------------

  /** The registers of a CRC, one after each byte. */
  ghost predicate Runs(registers: seq<u16>, data: seq<u8>) {
    && |registers| == |data| + 1
    && forall i :: 0 <= i < |data| ==> CrcByte(registers[i], data[i]) == registers[i + 1]
  }

  lemma {:induction false} RunIs(registers: seq<u16>, data: seq<u8>)
    requires Runs(registers, data)
    ensures CrcBytes(registers[0], data) == registers[|data|]
  {
    hide CrcByte;
    if data != [] {
      var n := |data| - 1;
      RunIs(registers[..n + 1], data[..n]);
    }
  }

  /** The check value of the standard: the CRC of "123456789". */
  lemma CheckValue()
    ensures CrcBytes(CRC_INIT, [0x31, 0x32, 0x33, 0x34, 0x35, 0x36, 0x37, 0x38, 0x39]) == 0x29B1
  {
    hide CrcByte;
    CheckSteps1();
    CheckSteps2();
    RunIs([0xFFFF, 0xC782, 0x3DBA, 0x5BCE, 0x5349, 0x4560, 0x2EF4, 0x7718, 0xA12B, 0x29B1], [0x31, 0x32, 0x33, 0x34, 0x35, 0x36, 0x37, 0x38, 0x39]);
  }

  lemma CheckSteps1()
    ensures CrcByte(0xFFFF, 0x31) == 0xC782
    ensures CrcByte(0xC782, 0x32) == 0x3DBA
    ensures CrcByte(0x3DBA, 0x33) == 0x5BCE
    ensures CrcByte(0x5BCE, 0x34) == 0x5349
    ensures CrcByte(0x5349, 0x35) == 0x4560
  {
    CheckSteps1Bits();
    hide ByteStep;
    assert 0xFFFF as bv16 == 0xFFFF && 0x31 as bv16 == 0x31 && 0xC782 as bv16 == 0xC782;
    assert 0x32 as bv16 == 0x32 && 0x3DBA as bv16 == 0x3DBA && 0x33 as bv16 == 0x33;
    assert 0x5BCE as bv16 == 0x5BCE && 0x34 as bv16 == 0x34 && 0x5349 as bv16 == 0x5349;
    assert 0x35 as bv16 == 0x35;
  }

  lemma CheckSteps1Bits()
    ensures ByteStep(0xFFFF, 0x31) == 0xC782
    ensures ByteStep(0xC782, 0x32) == 0x3DBA
    ensures ByteStep(0x3DBA, 0x33) == 0x5BCE
    ensures ByteStep(0x5BCE, 0x34) == 0x5349
    ensures ByteStep(0x5349, 0x35) == 0x4560
  {
  }

  lemma CheckSteps2()
    ensures CrcByte(0x4560, 0x36) == 0x2EF4
    ensures CrcByte(0x2EF4, 0x37) == 0x7718
    ensures CrcByte(0x7718, 0x38) == 0xA12B
    ensures CrcByte(0xA12B, 0x39) == 0x29B1
  {
    CheckSteps2Bits();
    hide ByteStep;
    assert 0x4560 as bv16 == 0x4560 && 0x36 as bv16 == 0x36 && 0x2EF4 as bv16 == 0x2EF4;
    assert 0x37 as bv16 == 0x37 && 0x7718 as bv16 == 0x7718 && 0x38 as bv16 == 0x38;
    assert 0xA12B as bv16 == 0xA12B && 0x39 as bv16 == 0x39;
  }

  lemma CheckSteps2Bits()
    ensures ByteStep(0x4560, 0x36) == 0x2EF4
    ensures ByteStep(0x2EF4, 0x37) == 0x7718
    ensures ByteStep(0x7718, 0x38) == 0xA12B
    ensures ByteStep(0xA12B, 0x39) == 0x29B1
  {
  }

  /** The CRC of the protocol's example of a debug frame, up to its payload's end. */
  lemma ExampleValue()
    ensures CrcBytes(CRC_INIT, [0xB5, 0x73, 0x30, 0xF0, 0x00, 0x04, 0x48, 0x69, 0x0D, 0x0A]) == 0x3588
  {
    hide CrcByte;
    ExampleSteps1();
    ExampleSteps2();
    RunIs([0xFFFF, 0x168E, 0xB203, 0xB2CA, 0xA286, 0x13A8, 0xCAD6, 0x67CA, 0x2BCE, 0x8AA4, 0x3588],
          [0xB5, 0x73, 0x30, 0xF0, 0x00, 0x04, 0x48, 0x69, 0x0D, 0x0A]);
  }

  lemma ExampleSteps1()
    ensures CrcByte(0xFFFF, 0xB5) == 0x168E
    ensures CrcByte(0x168E, 0x73) == 0xB203
    ensures CrcByte(0xB203, 0x30) == 0xB2CA
    ensures CrcByte(0xB2CA, 0xF0) == 0xA286
    ensures CrcByte(0xA286, 0x00) == 0x13A8
  {
    ExampleSteps1Bits();
    hide ByteStep;
    assert 0xFFFF as bv16 == 0xFFFF && 0xB5 as bv16 == 0xB5 && 0x168E as bv16 == 0x168E;
    assert 0x73 as bv16 == 0x73 && 0xB203 as bv16 == 0xB203 && 0x30 as bv16 == 0x30;
    assert 0xB2CA as bv16 == 0xB2CA && 0xF0 as bv16 == 0xF0 && 0xA286 as bv16 == 0xA286;
    assert 0x00 as bv16 == 0x00;
  }

  lemma ExampleSteps1Bits()
    ensures ByteStep(0xFFFF, 0xB5) == 0x168E
    ensures ByteStep(0x168E, 0x73) == 0xB203
    ensures ByteStep(0xB203, 0x30) == 0xB2CA
    ensures ByteStep(0xB2CA, 0xF0) == 0xA286
    ensures ByteStep(0xA286, 0x00) == 0x13A8
  {
  }

  lemma ExampleSteps2()
    ensures CrcByte(0x13A8, 0x04) == 0xCAD6
    ensures CrcByte(0xCAD6, 0x48) == 0x67CA
    ensures CrcByte(0x67CA, 0x69) == 0x2BCE
    ensures CrcByte(0x2BCE, 0x0D) == 0x8AA4
    ensures CrcByte(0x8AA4, 0x0A) == 0x3588
  {
    ExampleSteps2Bits();
    hide ByteStep;
    assert 0x13A8 as bv16 == 0x13A8 && 0x04 as bv16 == 0x04 && 0xCAD6 as bv16 == 0xCAD6;
    assert 0x48 as bv16 == 0x48 && 0x67CA as bv16 == 0x67CA && 0x69 as bv16 == 0x69;
    assert 0x2BCE as bv16 == 0x2BCE && 0x0D as bv16 == 0x0D && 0x8AA4 as bv16 == 0x8AA4;
    assert 0x0A as bv16 == 0x0A;
  }

  lemma ExampleSteps2Bits()
    ensures ByteStep(0x13A8, 0x04) == 0xCAD6
    ensures ByteStep(0xCAD6, 0x48) == 0x67CA
    ensures ByteStep(0x67CA, 0x69) == 0x2BCE
    ensures ByteStep(0x2BCE, 0x0D) == 0x8AA4
    ensures ByteStep(0x8AA4, 0x0A) == 0x3588
  {
  }
}
