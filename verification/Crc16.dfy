/**
 The CRC-16 of pkg/utils/crcutil/crc16.go, table driven, against the bit-by-bit definition of
 section 6.2.2 of MODBUS over Serial Line V1.02.
 */
module Crc16 {
  // The two tables of the source, in rows of sixteen entries.
  const HI_0: seq<bv8> := [0x00, 0xC1, 0x81, 0x40, 0x01, 0xC0, 0x80, 0x41,
                           0x01, 0xC0, 0x80, 0x41, 0x00, 0xC1, 0x81, 0x40]
  const HI_1: seq<bv8> := [0x01, 0xC0, 0x80, 0x41, 0x00, 0xC1, 0x81, 0x40,
                           0x00, 0xC1, 0x81, 0x40, 0x01, 0xC0, 0x80, 0x41]
  const HI_2: seq<bv8> := [0x01, 0xC0, 0x80, 0x41, 0x00, 0xC1, 0x81, 0x40,
                           0x00, 0xC1, 0x81, 0x40, 0x01, 0xC0, 0x80, 0x41]
  const HI_3: seq<bv8> := [0x00, 0xC1, 0x81, 0x40, 0x01, 0xC0, 0x80, 0x41,
                           0x01, 0xC0, 0x80, 0x41, 0x00, 0xC1, 0x81, 0x40]
  const HI_4: seq<bv8> := [0x01, 0xC0, 0x80, 0x41, 0x00, 0xC1, 0x81, 0x40,
                           0x00, 0xC1, 0x81, 0x40, 0x01, 0xC0, 0x80, 0x41]
  const HI_5: seq<bv8> := [0x00, 0xC1, 0x81, 0x40, 0x01, 0xC0, 0x80, 0x41,
                           0x01, 0xC0, 0x80, 0x41, 0x00, 0xC1, 0x81, 0x40]
  const HI_6: seq<bv8> := [0x00, 0xC1, 0x81, 0x40, 0x01, 0xC0, 0x80, 0x41,
                           0x01, 0xC0, 0x80, 0x41, 0x00, 0xC1, 0x81, 0x40]
  const HI_7: seq<bv8> := [0x01, 0xC0, 0x80, 0x41, 0x00, 0xC1, 0x81, 0x40,
                           0x00, 0xC1, 0x81, 0x40, 0x01, 0xC0, 0x80, 0x41]
  const HI_8: seq<bv8> := [0x01, 0xC0, 0x80, 0x41, 0x00, 0xC1, 0x81, 0x40,
                           0x00, 0xC1, 0x81, 0x40, 0x01, 0xC0, 0x80, 0x41]
  const HI_9: seq<bv8> := [0x00, 0xC1, 0x81, 0x40, 0x01, 0xC0, 0x80, 0x41,
                           0x01, 0xC0, 0x80, 0x41, 0x00, 0xC1, 0x81, 0x40]
  const HI_A: seq<bv8> := [0x00, 0xC1, 0x81, 0x40, 0x01, 0xC0, 0x80, 0x41,
                           0x01, 0xC0, 0x80, 0x41, 0x00, 0xC1, 0x81, 0x40]
  const HI_B: seq<bv8> := [0x01, 0xC0, 0x80, 0x41, 0x00, 0xC1, 0x81, 0x40,
                           0x00, 0xC1, 0x81, 0x40, 0x01, 0xC0, 0x80, 0x41]
  const HI_C: seq<bv8> := [0x00, 0xC1, 0x81, 0x40, 0x01, 0xC0, 0x80, 0x41,
                           0x01, 0xC0, 0x80, 0x41, 0x00, 0xC1, 0x81, 0x40]
  const HI_D: seq<bv8> := [0x01, 0xC0, 0x80, 0x41, 0x00, 0xC1, 0x81, 0x40,
                           0x00, 0xC1, 0x81, 0x40, 0x01, 0xC0, 0x80, 0x41]
  const HI_E: seq<bv8> := [0x01, 0xC0, 0x80, 0x41, 0x00, 0xC1, 0x81, 0x40,
                           0x00, 0xC1, 0x81, 0x40, 0x01, 0xC0, 0x80, 0x41]
  const HI_F: seq<bv8> := [0x00, 0xC1, 0x81, 0x40, 0x01, 0xC0, 0x80, 0x41,
                           0x01, 0xC0, 0x80, 0x41, 0x00, 0xC1, 0x81, 0x40]
  function HighRow(r: nat): (row: seq<bv8>)
    requires r < 16
    ensures |row| == 16
  {
    match r
    case 0 => HI_0
    case 1 => HI_1
    case 2 => HI_2
    case 3 => HI_3
    case 4 => HI_4
    case 5 => HI_5
    case 6 => HI_6
    case 7 => HI_7
    case 8 => HI_8
    case 9 => HI_9
    case 10 => HI_A
    case 11 => HI_B
    case 12 => HI_C
    case 13 => HI_D
    case 14 => HI_E
    case _ => HI_F
  }

  const LO_0: seq<bv8> := [0x00, 0xC0, 0xC1, 0x01, 0xC3, 0x03, 0x02, 0xC2,
                           0xC6, 0x06, 0x07, 0xC7, 0x05, 0xC5, 0xC4, 0x04]
  const LO_1: seq<bv8> := [0xCC, 0x0C, 0x0D, 0xCD, 0x0F, 0xCF, 0xCE, 0x0E,
                           0x0A, 0xCA, 0xCB, 0x0B, 0xC9, 0x09, 0x08, 0xC8]
  const LO_2: seq<bv8> := [0xD8, 0x18, 0x19, 0xD9, 0x1B, 0xDB, 0xDA, 0x1A,
                           0x1E, 0xDE, 0xDF, 0x1F, 0xDD, 0x1D, 0x1C, 0xDC]
  const LO_3: seq<bv8> := [0x14, 0xD4, 0xD5, 0x15, 0xD7, 0x17, 0x16, 0xD6,
                           0xD2, 0x12, 0x13, 0xD3, 0x11, 0xD1, 0xD0, 0x10]
  const LO_4: seq<bv8> := [0xF0, 0x30, 0x31, 0xF1, 0x33, 0xF3, 0xF2, 0x32,
                           0x36, 0xF6, 0xF7, 0x37, 0xF5, 0x35, 0x34, 0xF4]
  const LO_5: seq<bv8> := [0x3C, 0xFC, 0xFD, 0x3D, 0xFF, 0x3F, 0x3E, 0xFE,
                           0xFA, 0x3A, 0x3B, 0xFB, 0x39, 0xF9, 0xF8, 0x38]
  const LO_6: seq<bv8> := [0x28, 0xE8, 0xE9, 0x29, 0xEB, 0x2B, 0x2A, 0xEA,
                           0xEE, 0x2E, 0x2F, 0xEF, 0x2D, 0xED, 0xEC, 0x2C]
  const LO_7: seq<bv8> := [0xE4, 0x24, 0x25, 0xE5, 0x27, 0xE7, 0xE6, 0x26,
                           0x22, 0xE2, 0xE3, 0x23, 0xE1, 0x21, 0x20, 0xE0]
  const LO_8: seq<bv8> := [0xA0, 0x60, 0x61, 0xA1, 0x63, 0xA3, 0xA2, 0x62,
                           0x66, 0xA6, 0xA7, 0x67, 0xA5, 0x65, 0x64, 0xA4]
  const LO_9: seq<bv8> := [0x6C, 0xAC, 0xAD, 0x6D, 0xAF, 0x6F, 0x6E, 0xAE,
                           0xAA, 0x6A, 0x6B, 0xAB, 0x69, 0xA9, 0xA8, 0x68]
  const LO_A: seq<bv8> := [0x78, 0xB8, 0xB9, 0x79, 0xBB, 0x7B, 0x7A, 0xBA,
                           0xBE, 0x7E, 0x7F, 0xBF, 0x7D, 0xBD, 0xBC, 0x7C]
  const LO_B: seq<bv8> := [0xB4, 0x74, 0x75, 0xB5, 0x77, 0xB7, 0xB6, 0x76,
                           0x72, 0xB2, 0xB3, 0x73, 0xB1, 0x71, 0x70, 0xB0]
  const LO_C: seq<bv8> := [0x50, 0x90, 0x91, 0x51, 0x93, 0x53, 0x52, 0x92,
                           0x96, 0x56, 0x57, 0x97, 0x55, 0x95, 0x94, 0x54]
  const LO_D: seq<bv8> := [0x9C, 0x5C, 0x5D, 0x9D, 0x5F, 0x9F, 0x9E, 0x5E,
                           0x5A, 0x9A, 0x9B, 0x5B, 0x99, 0x59, 0x58, 0x98]
  const LO_E: seq<bv8> := [0x88, 0x48, 0x49, 0x89, 0x4B, 0x8B, 0x8A, 0x4A,
                           0x4E, 0x8E, 0x8F, 0x4F, 0x8D, 0x4D, 0x4C, 0x8C]
  const LO_F: seq<bv8> := [0x44, 0x84, 0x85, 0x45, 0x87, 0x47, 0x46, 0x86,
                           0x82, 0x42, 0x43, 0x83, 0x41, 0x81, 0x80, 0x40]
  function LowRow(r: nat): (row: seq<bv8>)
    requires r < 16
    ensures |row| == 16
  {
    match r
    case 0 => LO_0
    case 1 => LO_1
    case 2 => LO_2
    case 3 => LO_3
    case 4 => LO_4
    case 5 => LO_5
    case 6 => LO_6
    case 7 => LO_7
    case 8 => LO_8
    case 9 => LO_9
    case 10 => LO_A
    case 11 => LO_B
    case 12 => LO_C
    case 13 => LO_D
    case 14 => LO_E
    case _ => LO_F
  }

  // ---------------------------------------------------------------- the standard's definition

  /** Shift right by one bit, and apply the polynomial if the bit shifted out was set. */
  function ShiftBit(s: bv16): bv16 {
    if s & 1 == 1 then (s >> 1) ^ 0xA001 else s >> 1
  }

  function ShiftByte(s: bv16): bv16 {
    ShiftBit(ShiftBit(ShiftBit(ShiftBit(ShiftBit(ShiftBit(ShiftBit(ShiftBit(s))))))))
  }

  function Xor(x: bv16, y: bv16): bv16 {
    x ^ y
  }

  function Wide(x: bv8): bv16 {
    x as bv16
  }

  function High(x: bv8): bv16 {
    (x as bv16) << 8
  }

  function AbsorbByte(s: bv16, byt: bv8): bv16 {
    ShiftByte(Xor(s, Wide(byt)))
  }

  function Absorb(s: bv16, msg: seq<bv8>): bv16
    decreases |msg|
  {
    if msg == [] then s else Absorb(AbsorbByte(s, msg[0]), msg[1..])
  }

  /** The CRC register after a message, starting from all ones. */
  function Crc(msg: seq<bv8>): bv16 {
    Absorb(0xFFFF, msg)
  }

  function LowByte(s: bv16): bv8 {
    (s & 0xFF) as bv8
  }

  function HighByte(s: bv16): bv8 {
    (s >> 8) as bv8
  }

  /** The CRC is sent with its low-order byte first. */
  function CrcBytes(msg: seq<bv8>): seq<bv8> {
    [LowByte(Crc(msg)), HighByte(Crc(msg))]
  }

  /** The check value of CRC-16/MODBUS: the digits 1 to 9 come to 0x4B37. */
  lemma CheckValue()
    ensures Crc([0x31, 0x32, 0x33, 0x34, 0x35, 0x36, 0x37, 0x38, 0x39]) == 0x4B37
  {
    DigitSteps();
    hide AbsorbByte;
    var digits: seq<bv8> := [0x31, 0x32, 0x33, 0x34, 0x35, 0x36, 0x37, 0x38, 0x39];
    assert digits[0..] == digits && digits[9..] == [];
    AbsorbAt(0xFFFF, digits, 0, 0x947E);
    AbsorbAt(0x947E, digits, 1, 0xF595);
    AbsorbAt(0xF595, digits, 2, 0x7A75);
    AbsorbAt(0x7A75, digits, 3, 0x30BA);
    AbsorbAt(0x30BA, digits, 4, 0xA471);
    AbsorbAt(0xA471, digits, 5, 0x32E4);
    AbsorbAt(0x32E4, digits, 6, 0x9D73);
    AbsorbAt(0x9D73, digits, 7, 0x37DD);
    AbsorbAt(0x37DD, digits, 8, 0x4B37);
  }

  lemma DigitSteps()
    ensures AbsorbByte(0xFFFF, 0x31) == 0x947E && AbsorbByte(0x947E, 0x32) == 0xF595
    ensures AbsorbByte(0xF595, 0x33) == 0x7A75 && AbsorbByte(0x7A75, 0x34) == 0x30BA
    ensures AbsorbByte(0x30BA, 0x35) == 0xA471 && AbsorbByte(0xA471, 0x36) == 0x32E4
    ensures AbsorbByte(0x32E4, 0x37) == 0x9D73 && AbsorbByte(0x9D73, 0x38) == 0x37DD
    ensures AbsorbByte(0x37DD, 0x39) == 0x4B37
  {
  }

  lemma AbsorbAt(s: bv16, msg: seq<bv8>, i: nat, next: bv16)
    requires i < |msg| && AbsorbByte(s, msg[i]) == next
    ensures Absorb(s, msg[i..]) == Absorb(next, msg[i + 1..])
  {
    hide AbsorbByte;
    assert msg[i..][1..] == msg[i + 1..];
  }

  // ---------------------------------------------------------------- the table-driven sum

  function Hi(index: bv8): bv8 {
    HighRow((index >> 4) as int)[(index & 0xF) as int]
  }

  function Lo(index: bv8): bv8 {
    LowRow((index >> 4) as int)[(index & 0xF) as int]
  }

  function Join(high: bv8, low: bv8): bv16 {
    ((high as bv16) << 8) | (low as bv16)
  }

  /** CheckCrc16sum: despite its name, crcH holds the low-order byte of the register. */
  method CheckCrc16sum(bytes: seq<bv8>) returns (sum: bv16)
    ensures sum == Join(LowByte(Crc(bytes)), HighByte(Crc(bytes)))
  {
    hide ShiftByte, Hi, Lo, LowByte, HighByte;
    var crcH: bv8, crcL: bv8 := 0xFF, 0xFF;
    assert Join(crcL, crcH) == 0xFFFF;
    for i := 0 to |bytes|
      invariant Absorb(Join(crcL, crcH), bytes[i..]) == Crc(bytes)
    {
      var index := crcH ^ bytes[i];
      TableStep(crcL, crcH, bytes[i]);
      assert bytes[i..][1..] == bytes[i + 1..];
      crcH, crcL := crcL ^ Hi(index), Lo(index);
    }
    JoinBytes(crcL, crcH);
    sum := ((crcH as bv16) << 8) | (crcL as bv16);
  }

  lemma JoinBytes(high: bv8, low: bv8)
    ensures LowByte(Join(high, low)) == low && HighByte(Join(high, low)) == high
  {
  }

  /** One step of the table-driven loop is one byte of the standard's loop. */
  lemma TableStep(crcL: bv8, crcH: bv8, byt: bv8)
    ensures var index := crcH ^ byt;
            Join(Lo(index), crcL ^ Hi(index)) == AbsorbByte(Join(crcL, crcH), byt)
  {
    assert Xor(Join(crcL, crcH), Wide(byt)) == Xor(High(crcL), Wide(crcH ^ byt));
    hide ShiftByte, Hi, Lo, Join, Xor, Wide, High;
    var index := crcH ^ byt;
    ShiftByteXor(High(crcL), Wide(index));
    ShiftHighByte(crcL);
    TableMatches(index);
    JoinXorHigh(Lo(index), Hi(index), crcL);
  }

  lemma JoinXorHigh(high: bv8, low: bv8, x: bv8)
    ensures Join(high, x ^ low) == Xor(Wide(x), Join(high, low))
  {
  }

  lemma XorBits(x: bv16, y: bv16)
    ensures (x ^ y) >> 1 == (x >> 1) ^ (y >> 1)
    ensures (x ^ y) & 1 == (x & 1) ^ (y & 1)
    ensures x & 1 == 0 || x & 1 == 1
    ensures y & 1 == 0 || y & 1 == 1
  {
  }

  lemma ShiftBitLinear(x: bv16, y: bv16)
    ensures ShiftBit(x ^ y) == ShiftBit(x) ^ ShiftBit(y)
  {
    XorBits(x, y);
    if x & 1 == 1 {
      if y & 1 == 1 {} else {}
    } else {
      if y & 1 == 1 {} else {}
    }
  }

  lemma ShiftBitXor(x: bv16, y: bv16)
    ensures ShiftBit(Xor(x, y)) == Xor(ShiftBit(x), ShiftBit(y))
  {
    hide ShiftBit;
    ShiftBitLinear(x, y);
  }

  lemma ShiftByteXor(x: bv16, y: bv16)
    ensures ShiftByte(Xor(x, y)) == Xor(ShiftByte(x), ShiftByte(y))
  {
    hide ShiftBit, Xor;
    var x1, y1 := ShiftBit(x), ShiftBit(y);
    var x2, y2 := ShiftBit(x1), ShiftBit(y1);
    var x3, y3 := ShiftBit(x2), ShiftBit(y2);
    var x4, y4 := ShiftBit(x3), ShiftBit(y3);
    var x5, y5 := ShiftBit(x4), ShiftBit(y4);
    var x6, y6 := ShiftBit(x5), ShiftBit(y5);
    var x7, y7 := ShiftBit(x6), ShiftBit(y6);
    ShiftBitXor(x, y);
    ShiftBitXor(x1, y1);
    ShiftBitXor(x2, y2);
    ShiftBitXor(x3, y3);
    ShiftBitXor(x4, y4);
    ShiftBitXor(x5, y5);
    ShiftBitXor(x6, y6);
    ShiftBitXor(x7, y7);
  }

  lemma ShiftHighByte(h: bv8)
    ensures ShiftByte(High(h)) == Wide(h)
  {
    var x := h as bv16;
    assert ShiftBit(x << 8) == x << 7 && ShiftBit(x << 7) == x << 6 && ShiftBit(x << 6) == x << 5;
    assert ShiftBit(x << 5) == x << 4 && ShiftBit(x << 4) == x << 3 && ShiftBit(x << 3) == x << 2;
    assert ShiftBit(x << 2) == x << 1 && ShiftBit(x << 1) == x;
  }

  // ---------------------------------------------------------------- every entry of the table

  const NIBBLES: seq<bv8> := [0x0, 0x1, 0x2, 0x3, 0x4, 0x5, 0x6, 0x7, 0x8, 0x9, 0xA, 0xB, 0xC, 0xD, 0xE, 0xF]

  const FIRSTS: seq<bv8> := [0x00, 0x10, 0x20, 0x30, 0x40, 0x50, 0x60, 0x70,
                             0x80, 0x90, 0xA0, 0xB0, 0xC0, 0xD0, 0xE0, 0xF0]

  lemma Nibble(x: bv8)
    requires x < 16
    ensures NIBBLES[x as int] == x && FIRSTS[x as int] == x << 4
  {
    if x == 0x0 {} else if x == 0x1 {} else if x == 0x2 {} else if x == 0x3 {}
    else if x == 0x4 {} else if x == 0x5 {} else if x == 0x6 {} else if x == 0x7 {}
    else if x == 0x8 {} else if x == 0x9 {} else if x == 0xA {} else if x == 0xB {}
    else if x == 0xC {} else if x == 0xD {} else if x == 0xE {} else {}
  }

  function XorByte(x: bv8, y: bv8): bv8 {
    x ^ y
  }

  function Shifted(row: seq<bv8>, x: bv8): (r: seq<bv8>)
    requires |row| == 16
  {
    [XorByte(row[0], x), XorByte(row[1], x), XorByte(row[2], x), XorByte(row[3], x),
     XorByte(row[4], x), XorByte(row[5], x), XorByte(row[6], x), XorByte(row[7], x),
     XorByte(row[8], x), XorByte(row[9], x), XorByte(row[10], x), XorByte(row[11], x),
     XorByte(row[12], x), XorByte(row[13], x), XorByte(row[14], x), XorByte(row[15], x)]
  }

  lemma ShiftedAt(row: seq<bv8>, x: bv8, c: nat)
    requires c < 16 && |row| == 16
    ensures Shifted(row, x)[c] == XorByte(row[c], x)
  {
    hide XorByte;
    if c < 8 {
      if c < 4 {} else {}
    } else {
      if c < 12 {} else {}
    }
  }

  /** The first entry of a row matches, and the columns differ as they do in row 0. */
  predicate RowMatches(r: nat, first: bv8)
    requires r < 16
  {
    var hi, lo := HighRow(r), LowRow(r);
    && Join(lo[0], hi[0]) == ShiftByte(Wide(first)) && hi == Shifted(HI_0, hi[0]) && lo == Shifted(LO_0, lo[0])
  }

  lemma RowsFrom0()
    ensures RowMatches(0x0, 0x00) && RowMatches(0x1, 0x10) && RowMatches(0x2, 0x20) && RowMatches(0x3, 0x30)
  {
  }

  lemma RowsFrom4()
    ensures RowMatches(0x4, 0x40) && RowMatches(0x5, 0x50) && RowMatches(0x6, 0x60) && RowMatches(0x7, 0x70)
  {
  }

  lemma RowsFrom8()
    ensures RowMatches(0x8, 0x80) && RowMatches(0x9, 0x90) && RowMatches(0xA, 0xA0) && RowMatches(0xB, 0xB0)
  {
  }

  lemma RowsFromC()
    ensures RowMatches(0xC, 0xC0) && RowMatches(0xD, 0xD0) && RowMatches(0xE, 0xE0) && RowMatches(0xF, 0xF0)
  {
  }

  lemma AnyRow(r: nat)
    requires r < 16
    ensures RowMatches(r, FIRSTS[r])
  {
    hide RowMatches, HighRow, LowRow;
    if r < 4 {
      RowsFrom0();
    } else if r < 8 {
      RowsFrom4();
    } else if r < 12 {
      RowsFrom8();
    } else {
      RowsFromC();
    }
  }

  predicate ColumnMatches(c: nat, column: bv8)
    requires c < 16
  {
    Join(LO_0[c], HI_0[c]) == ShiftByte(Wide(column))
  }

  lemma LowerColumns()
    ensures ColumnMatches(0x0, 0x0) && ColumnMatches(0x1, 0x1) && ColumnMatches(0x2, 0x2) && ColumnMatches(0x3, 0x3)
  {
  }

  lemma MiddleColumns()
    ensures ColumnMatches(0x4, 0x4) && ColumnMatches(0x5, 0x5) && ColumnMatches(0x6, 0x6) && ColumnMatches(0x7, 0x7)
  {
  }

  lemma UpperColumns()
    ensures ColumnMatches(0x8, 0x8) && ColumnMatches(0x9, 0x9) && ColumnMatches(0xA, 0xA) && ColumnMatches(0xB, 0xB)
    ensures ColumnMatches(0xC, 0xC) && ColumnMatches(0xD, 0xD) && ColumnMatches(0xE, 0xE) && ColumnMatches(0xF, 0xF)
  {
  }

  lemma AnyColumn(c: nat)
    requires c < 16
    ensures ColumnMatches(c, NIBBLES[c])
  {
    hide ColumnMatches;
    LowerColumns();
    MiddleColumns();
    UpperColumns();
  }

  /** ShiftByte is linear. */
  lemma Combined(lo: bv8, hi: bv8, x: bv8, lo': bv8, hi': bv8, y: bv8)
    requires Join(lo, hi) == ShiftByte(Wide(x)) && Join(lo', hi') == ShiftByte(Wide(y))
    ensures Join(XorByte(lo', lo), XorByte(hi', hi)) == ShiftByte(Wide(x ^ y))
  {
    assert Join(lo' ^ lo, hi' ^ hi) == Xor(Join(lo, hi), Join(lo', hi'));
    assert Wide(x ^ y) == Xor(Wide(x), Wide(y));
    ShiftByteXor(Wide(x), Wide(y));
  }

  lemma Entry(r: nat, c: nat)
    requires r < 16 && c < 16
    ensures Join(LowRow(r)[c], HighRow(r)[c]) == ShiftByte(Wide(FIRSTS[r] ^ NIBBLES[c]))
  {
    assert |HI_0| == |LO_0| == 16 && |NIBBLES| == |FIRSTS| == 16;
    hide ShiftByte, Join, Wide, HighRow, LowRow, Shifted, XorByte, HI_0, LO_0, NIBBLES, FIRSTS;
    var hi, lo := HighRow(r), LowRow(r);
    AnyRow(r);
    AnyColumn(c);
    ShiftedAt(HI_0, hi[0], c);
    ShiftedAt(LO_0, lo[0], c);
    Combined(lo[0], hi[0], FIRSTS[r], LO_0[c], HI_0[c], NIBBLES[c]);
  }

  lemma TableMatches(index: bv8)
    ensures Join(Lo(index), Hi(index)) == ShiftByte(Wide(index))
  {
    hide ShiftByte, Join, Wide, HighRow, LowRow, NIBBLES, FIRSTS;
    var row, column := index >> 4, index & 0xF;
    assert (row << 4) ^ column == index;
    Nibble(row);
    Nibble(column);
    Entry(row as int, column as int);
  }

  // ---------------------------------------------------------------- what the sum detects

  lemma AbsorbConcat(s: bv16, a: seq<bv8>, b: seq<bv8>)
    ensures Absorb(s, a + b) == Absorb(Absorb(s, a), b)
    decreases |a|
  {
    hide AbsorbByte;
    if a == [] {
      assert a + b == b;
    } else {
      assert (a + b)[1..] == a[1..] + b;
      AbsorbConcat(AbsorbByte(s, a[0]), a[1..], b);
    }
  }

  lemma ShiftBitInjective(x: bv16, y: bv16)
    ensures ShiftBit(x) == ShiftBit(y) <==> x == y
  {
  }

  lemma ShiftByteInjective(x: bv16, y: bv16)
    ensures ShiftByte(x) == ShiftByte(y) <==> x == y
  {
    hide ShiftBit;
    var x1, y1 := ShiftBit(x), ShiftBit(y);
    var x2, y2 := ShiftBit(x1), ShiftBit(y1);
    var x3, y3 := ShiftBit(x2), ShiftBit(y2);
    var x4, y4 := ShiftBit(x3), ShiftBit(y3);
    var x5, y5 := ShiftBit(x4), ShiftBit(y4);
    var x6, y6 := ShiftBit(x5), ShiftBit(y5);
    var x7, y7 := ShiftBit(x6), ShiftBit(y6);
    ShiftBitInjective(x, y);
    ShiftBitInjective(x1, y1);
    ShiftBitInjective(x2, y2);
    ShiftBitInjective(x3, y3);
    ShiftBitInjective(x4, y4);
    ShiftBitInjective(x5, y5);
    ShiftBitInjective(x6, y6);
    ShiftBitInjective(x7, y7);
  }

  /** Messages that end alike have the same CRC only if the registers agreed before that end. */
  lemma {:induction false} AbsorbInjective(s: bv16, s': bv16, msg: seq<bv8>)
    ensures Absorb(s, msg) == Absorb(s', msg) <==> s == s'
    decreases |msg|
  {
    hide ShiftByte, Xor, Wide;
    if msg != [] {
      XorInjective(s, s', Wide(msg[0]));
      ShiftByteInjective(Xor(s, Wide(msg[0])), Xor(s', Wide(msg[0])));
      AbsorbInjective(AbsorbByte(s, msg[0]), AbsorbByte(s', msg[0]), msg[1..]);
    }
  }

  lemma XorInjective(s: bv16, s': bv16, x: bv16)
    ensures Xor(s, x) == Xor(s', x) <==> s == s'
    ensures Xor(x, s) == Xor(x, s') <==> s == s'
  {
  }

  lemma AbsorbPair(s: bv16, x: bv8, y: bv8)
    ensures Absorb(s, [x, y]) == ShiftByte(ShiftByte(Xor(s, Join(y, x))))
  {
    assert Xor(s, Join(y, x)) == Xor(Xor(s, Wide(x)), High(y));
    hide ShiftByte, Xor, Wide, High, Join;
    assert [x, y][1..] == [y] && [y][1..] == [];
    assert Absorb(s, [x, y]) == Absorb(AbsorbByte(s, x), [y]);
    assert Absorb(AbsorbByte(s, x), [y]) == AbsorbByte(AbsorbByte(s, x), y);
    ShiftByteXor(Xor(s, Wide(x)), High(y));
    ShiftHighByte(y);
  }

  /** Every error burst within two adjacent bytes is detected. */
  lemma BurstDetected(start: seq<bv8>, x: bv8, y: bv8, x': bv8, y': bv8, end: seq<bv8>)
    ensures Crc(start + [x, y] + end) == Crc(start + [x', y'] + end) <==> x == x' && y == y'
  {
    hide ShiftByte, Absorb, Xor, Join;
    var s, j, j' := Absorb(0xFFFF, start), Join(y, x), Join(y', x');
    AbsorbConcat(0xFFFF, start, [x, y]);
    AbsorbConcat(0xFFFF, start + [x, y], end);
    AbsorbConcat(0xFFFF, start, [x', y']);
    AbsorbConcat(0xFFFF, start + [x', y'], end);
    AbsorbPair(s, x, y);
    AbsorbPair(s, x', y');
    AbsorbInjective(Absorb(s, [x, y]), Absorb(s, [x', y']), end);
    ShiftByteInjective(ShiftByte(Xor(s, j)), ShiftByte(Xor(s, j')));
    ShiftByteInjective(Xor(s, j), Xor(s, j'));
    XorInjective(j, j', s);
    JoinBytes(y, x);
    JoinBytes(y', x');
  }

  /** Two bytes after a message bring its CRC to zero exactly when they are its CRC, low byte first. */
  lemma ResidueZero(msg: seq<bv8>, x: bv8, y: bv8)
    ensures Crc(msg + [x, y]) == 0 <==> [x, y] == CrcBytes(msg)
  {
    var s, j := Crc(msg), Join(y, x);
    assert ShiftByte(0) == 0 && Xor(j, j) == 0;
    assert Join(HighByte(s), LowByte(s)) == s;
    hide ShiftByte, Absorb, Xor, Join, LowByte, HighByte;
    AbsorbConcat(0xFFFF, msg, [x, y]);
    AbsorbPair(s, x, y);
    ShiftByteInjective(ShiftByte(Xor(s, j)), ShiftByte(0));
    ShiftByteInjective(Xor(s, j), 0);
    XorInjective(s, j, j);
    JoinBytes(y, x);
    assert Crc(msg + [x, y]) == 0 <==> s == j;
    assert s == j <==> x == LowByte(s) && y == HighByte(s);
  }
}
