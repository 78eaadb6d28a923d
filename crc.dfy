/** The CRC-8 engine of CRSF: the `crc8tab` lookup table (polynomial 0xD5,
    most significant bit first, not reflected) and `CalcCRC`, which folds it over
    a byte range starting from the seed 0. */
module Crc {
  import opened CTypes

  // The sixteen rows of `crc8tab`, one per line of the source table.
  const Crc8TabRow0: seq<Byte> := [0x00, 0xD5, 0x7F, 0xAA, 0xFE, 0x2B, 0x81, 0x54, 0x29, 0xFC, 0x56, 0x83, 0xD7, 0x02, 0xA8, 0x7D]
  const Crc8TabRow1: seq<Byte> := [0x52, 0x87, 0x2D, 0xF8, 0xAC, 0x79, 0xD3, 0x06, 0x7B, 0xAE, 0x04, 0xD1, 0x85, 0x50, 0xFA, 0x2F]
  const Crc8TabRow2: seq<Byte> := [0xA4, 0x71, 0xDB, 0x0E, 0x5A, 0x8F, 0x25, 0xF0, 0x8D, 0x58, 0xF2, 0x27, 0x73, 0xA6, 0x0C, 0xD9]
  const Crc8TabRow3: seq<Byte> := [0xF6, 0x23, 0x89, 0x5C, 0x08, 0xDD, 0x77, 0xA2, 0xDF, 0x0A, 0xA0, 0x75, 0x21, 0xF4, 0x5E, 0x8B]
  const Crc8TabRow4: seq<Byte> := [0x9D, 0x48, 0xE2, 0x37, 0x63, 0xB6, 0x1C, 0xC9, 0xB4, 0x61, 0xCB, 0x1E, 0x4A, 0x9F, 0x35, 0xE0]
  const Crc8TabRow5: seq<Byte> := [0xCF, 0x1A, 0xB0, 0x65, 0x31, 0xE4, 0x4E, 0x9B, 0xE6, 0x33, 0x99, 0x4C, 0x18, 0xCD, 0x67, 0xB2]
  const Crc8TabRow6: seq<Byte> := [0x39, 0xEC, 0x46, 0x93, 0xC7, 0x12, 0xB8, 0x6D, 0x10, 0xC5, 0x6F, 0xBA, 0xEE, 0x3B, 0x91, 0x44]
  const Crc8TabRow7: seq<Byte> := [0x6B, 0xBE, 0x14, 0xC1, 0x95, 0x40, 0xEA, 0x3F, 0x42, 0x97, 0x3D, 0xE8, 0xBC, 0x69, 0xC3, 0x16]
  const Crc8TabRow8: seq<Byte> := [0xEF, 0x3A, 0x90, 0x45, 0x11, 0xC4, 0x6E, 0xBB, 0xC6, 0x13, 0xB9, 0x6C, 0x38, 0xED, 0x47, 0x92]
  const Crc8TabRow9: seq<Byte> := [0xBD, 0x68, 0xC2, 0x17, 0x43, 0x96, 0x3C, 0xE9, 0x94, 0x41, 0xEB, 0x3E, 0x6A, 0xBF, 0x15, 0xC0]
  const Crc8TabRowA: seq<Byte> := [0x4B, 0x9E, 0x34, 0xE1, 0xB5, 0x60, 0xCA, 0x1F, 0x62, 0xB7, 0x1D, 0xC8, 0x9C, 0x49, 0xE3, 0x36]
  const Crc8TabRowB: seq<Byte> := [0x19, 0xCC, 0x66, 0xB3, 0xE7, 0x32, 0x98, 0x4D, 0x30, 0xE5, 0x4F, 0x9A, 0xCE, 0x1B, 0xB1, 0x64]
  const Crc8TabRowC: seq<Byte> := [0x72, 0xA7, 0x0D, 0xD8, 0x8C, 0x59, 0xF3, 0x26, 0x5B, 0x8E, 0x24, 0xF1, 0xA5, 0x70, 0xDA, 0x0F]
  const Crc8TabRowD: seq<Byte> := [0x20, 0xF5, 0x5F, 0x8A, 0xDE, 0x0B, 0xA1, 0x74, 0x09, 0xDC, 0x76, 0xA3, 0xF7, 0x22, 0x88, 0x5D]
  const Crc8TabRowE: seq<Byte> := [0xD6, 0x03, 0xA9, 0x7C, 0x28, 0xFD, 0x57, 0x82, 0xFF, 0x2A, 0x80, 0x55, 0x01, 0xD4, 0x7E, 0xAB]
  const Crc8TabRowF: seq<Byte> := [0x84, 0x51, 0xFB, 0x2E, 0x7A, 0xAF, 0x05, 0xD0, 0xAD, 0x78, 0xD2, 0x07, 0x53, 0x86, 0x2C, 0xF9]

  /** `crc8tab`: entry `i` is the CRC-8 of the single byte `i`. */
  const Crc8Tab: seq<Byte> :=
    Crc8TabRow0 + Crc8TabRow1 + Crc8TabRow2 + Crc8TabRow3 + Crc8TabRow4 + Crc8TabRow5 + Crc8TabRow6 + Crc8TabRow7 +
    Crc8TabRow8 + Crc8TabRow9 + Crc8TabRowA + Crc8TabRowB + Crc8TabRowC + Crc8TabRowD + Crc8TabRowE + Crc8TabRowF

  /** One step of the table-driven CRC, `crc = crc8tab[crc ^ byte]`: the byte entered
      into the register and shifted through it eight times. */
  function Update(crc: Byte, b: Byte): (r: Byte)
    ensures r == ShiftByte(crc ^ b)
  {
    TableIsBitwise(crc ^ b);
    Crc8Tab[(crc ^ b) as int]
  }

  /** The loop of `CalcCRC`, continued from any register value: the table-driven loop
      computes the bitwise CRC-8 with polynomial 0xD5. */
  function Fold(crc: Byte, data: seq<Byte>): (r: Byte)
    ensures r == BitwiseFold(crc, data)
    decreases |data|
  {
    if data == [] then crc else Fold(Update(crc, data[0]), data[1..])
  }

  // ---------------------------------------------------------------------------
  // Reference definition: the bitwise, MSB-first shift register for 0xD5.

  /** One byte entered into the register: eight times, shift the register left by one
      bit and subtract (XOR) the polynomial when a 1 falls out. The result is the CRC-8
      remainder of that byte. */
  function ShiftByte(r: bv8): bv8
  {
    var r1 := if r & 0x80 != 0 then (r << 1) ^ 0xD5 else r << 1;
    var r2 := if r1 & 0x80 != 0 then (r1 << 1) ^ 0xD5 else r1 << 1;
    var r3 := if r2 & 0x80 != 0 then (r2 << 1) ^ 0xD5 else r2 << 1;
    var r4 := if r3 & 0x80 != 0 then (r3 << 1) ^ 0xD5 else r3 << 1;
    var r5 := if r4 & 0x80 != 0 then (r4 << 1) ^ 0xD5 else r4 << 1;
    var r6 := if r5 & 0x80 != 0 then (r5 << 1) ^ 0xD5 else r5 << 1;
    var r7 := if r6 & 0x80 != 0 then (r6 << 1) ^ 0xD5 else r6 << 1;
    if r7 & 0x80 != 0 then (r7 << 1) ^ 0xD5 else r7 << 1
  }

  /** The bitwise CRC-8 (polynomial 0xD5, MSB first, seed `crc`) of `data`. */
  function BitwiseFold(crc: Byte, data: seq<Byte>): Byte
    decreases |data|
  {
    if data == [] then crc else BitwiseFold(ShiftByte(crc ^ data[0]), data[1..])
  }

  /** The CRC-8 of a byte range: polynomial 0xD5, most significant bit first, seed 0,
      no final XOR. */
  function Crc8(data: seq<Byte>): Byte
  {
    BitwiseFold(0, data)
  }

  lemma TableRow0IsBitwise(b: Byte)
    requires 0x00 <= b <= 0x0F
    ensures Crc8Tab[b as int] == ShiftByte(b)
  {
    if b == 0x00 {
      assert Crc8Tab[0x00] == ShiftByte(0x00);
    } else if b == 0x01 {
      assert Crc8Tab[0x01] == ShiftByte(0x01);
    } else if b == 0x02 {
      assert Crc8Tab[0x02] == ShiftByte(0x02);
    } else if b == 0x03 {
      assert Crc8Tab[0x03] == ShiftByte(0x03);
    } else if b == 0x04 {
      assert Crc8Tab[0x04] == ShiftByte(0x04);
    } else if b == 0x05 {
      assert Crc8Tab[0x05] == ShiftByte(0x05);
    } else if b == 0x06 {
      assert Crc8Tab[0x06] == ShiftByte(0x06);
    } else if b == 0x07 {
      assert Crc8Tab[0x07] == ShiftByte(0x07);
    } else if b == 0x08 {
      assert Crc8Tab[0x08] == ShiftByte(0x08);
    } else if b == 0x09 {
      assert Crc8Tab[0x09] == ShiftByte(0x09);
    } else if b == 0x0A {
      assert Crc8Tab[0x0A] == ShiftByte(0x0A);
    } else if b == 0x0B {
      assert Crc8Tab[0x0B] == ShiftByte(0x0B);
    } else if b == 0x0C {
      assert Crc8Tab[0x0C] == ShiftByte(0x0C);
    } else if b == 0x0D {
      assert Crc8Tab[0x0D] == ShiftByte(0x0D);
    } else if b == 0x0E {
      assert Crc8Tab[0x0E] == ShiftByte(0x0E);
    } else {
      assert Crc8Tab[0x0F] == ShiftByte(0x0F);
    }
  }

  lemma TableRow1IsBitwise(b: Byte)
    requires 0x10 <= b <= 0x1F
    ensures Crc8Tab[b as int] == ShiftByte(b)
  {
    if b == 0x10 {
      assert Crc8Tab[0x10] == ShiftByte(0x10);
    } else if b == 0x11 {
      assert Crc8Tab[0x11] == ShiftByte(0x11);
    } else if b == 0x12 {
      assert Crc8Tab[0x12] == ShiftByte(0x12);
    } else if b == 0x13 {
      assert Crc8Tab[0x13] == ShiftByte(0x13);
    } else if b == 0x14 {
      assert Crc8Tab[0x14] == ShiftByte(0x14);
    } else if b == 0x15 {
      assert Crc8Tab[0x15] == ShiftByte(0x15);
    } else if b == 0x16 {
      assert Crc8Tab[0x16] == ShiftByte(0x16);
    } else if b == 0x17 {
      assert Crc8Tab[0x17] == ShiftByte(0x17);
    } else if b == 0x18 {
      assert Crc8Tab[0x18] == ShiftByte(0x18);
    } else if b == 0x19 {
      assert Crc8Tab[0x19] == ShiftByte(0x19);
    } else if b == 0x1A {
      assert Crc8Tab[0x1A] == ShiftByte(0x1A);
    } else if b == 0x1B {
      assert Crc8Tab[0x1B] == ShiftByte(0x1B);
    } else if b == 0x1C {
      assert Crc8Tab[0x1C] == ShiftByte(0x1C);
    } else if b == 0x1D {
      assert Crc8Tab[0x1D] == ShiftByte(0x1D);
    } else if b == 0x1E {
      assert Crc8Tab[0x1E] == ShiftByte(0x1E);
    } else {
      assert Crc8Tab[0x1F] == ShiftByte(0x1F);
    }
  }

  lemma TableRow2IsBitwise(b: Byte)
    requires 0x20 <= b <= 0x2F
    ensures Crc8Tab[b as int] == ShiftByte(b)
  {
    if b == 0x20 {
      assert Crc8Tab[0x20] == ShiftByte(0x20);
    } else if b == 0x21 {
      assert Crc8Tab[0x21] == ShiftByte(0x21);
    } else if b == 0x22 {
      assert Crc8Tab[0x22] == ShiftByte(0x22);
    } else if b == 0x23 {
      assert Crc8Tab[0x23] == ShiftByte(0x23);
    } else if b == 0x24 {
      assert Crc8Tab[0x24] == ShiftByte(0x24);
    } else if b == 0x25 {
      assert Crc8Tab[0x25] == ShiftByte(0x25);
    } else if b == 0x26 {
      assert Crc8Tab[0x26] == ShiftByte(0x26);
    } else if b == 0x27 {
      assert Crc8Tab[0x27] == ShiftByte(0x27);
    } else if b == 0x28 {
      assert Crc8Tab[0x28] == ShiftByte(0x28);
    } else if b == 0x29 {
      assert Crc8Tab[0x29] == ShiftByte(0x29);
    } else if b == 0x2A {
      assert Crc8Tab[0x2A] == ShiftByte(0x2A);
    } else if b == 0x2B {
      assert Crc8Tab[0x2B] == ShiftByte(0x2B);
    } else if b == 0x2C {
      assert Crc8Tab[0x2C] == ShiftByte(0x2C);
    } else if b == 0x2D {
      assert Crc8Tab[0x2D] == ShiftByte(0x2D);
    } else if b == 0x2E {
      assert Crc8Tab[0x2E] == ShiftByte(0x2E);
    } else {
      assert Crc8Tab[0x2F] == ShiftByte(0x2F);
    }
  }

  lemma TableRow3IsBitwise(b: Byte)
    requires 0x30 <= b <= 0x3F
    ensures Crc8Tab[b as int] == ShiftByte(b)
  {
    if b == 0x30 {
      assert Crc8Tab[0x30] == ShiftByte(0x30);
    } else if b == 0x31 {
      assert Crc8Tab[0x31] == ShiftByte(0x31);
    } else if b == 0x32 {
      assert Crc8Tab[0x32] == ShiftByte(0x32);
    } else if b == 0x33 {
      assert Crc8Tab[0x33] == ShiftByte(0x33);
    } else if b == 0x34 {
      assert Crc8Tab[0x34] == ShiftByte(0x34);
    } else if b == 0x35 {
      assert Crc8Tab[0x35] == ShiftByte(0x35);
    } else if b == 0x36 {
      assert Crc8Tab[0x36] == ShiftByte(0x36);
    } else if b == 0x37 {
      assert Crc8Tab[0x37] == ShiftByte(0x37);
    } else if b == 0x38 {
      assert Crc8Tab[0x38] == ShiftByte(0x38);
    } else if b == 0x39 {
      assert Crc8Tab[0x39] == ShiftByte(0x39);
    } else if b == 0x3A {
      assert Crc8Tab[0x3A] == ShiftByte(0x3A);
    } else if b == 0x3B {
      assert Crc8Tab[0x3B] == ShiftByte(0x3B);
    } else if b == 0x3C {
      assert Crc8Tab[0x3C] == ShiftByte(0x3C);
    } else if b == 0x3D {
      assert Crc8Tab[0x3D] == ShiftByte(0x3D);
    } else if b == 0x3E {
      assert Crc8Tab[0x3E] == ShiftByte(0x3E);
    } else {
      assert Crc8Tab[0x3F] == ShiftByte(0x3F);
    }
  }

  lemma TableRow4IsBitwise(b: Byte)
    requires 0x40 <= b <= 0x4F
    ensures Crc8Tab[b as int] == ShiftByte(b)
  {
    if b == 0x40 {
      assert Crc8Tab[0x40] == ShiftByte(0x40);
    } else if b == 0x41 {
      assert Crc8Tab[0x41] == ShiftByte(0x41);
    } else if b == 0x42 {
      assert Crc8Tab[0x42] == ShiftByte(0x42);
    } else if b == 0x43 {
      assert Crc8Tab[0x43] == ShiftByte(0x43);
    } else if b == 0x44 {
      assert Crc8Tab[0x44] == ShiftByte(0x44);
    } else if b == 0x45 {
      assert Crc8Tab[0x45] == ShiftByte(0x45);
    } else if b == 0x46 {
      assert Crc8Tab[0x46] == ShiftByte(0x46);
    } else if b == 0x47 {
      assert Crc8Tab[0x47] == ShiftByte(0x47);
    } else if b == 0x48 {
      assert Crc8Tab[0x48] == ShiftByte(0x48);
    } else if b == 0x49 {
      assert Crc8Tab[0x49] == ShiftByte(0x49);
    } else if b == 0x4A {
      assert Crc8Tab[0x4A] == ShiftByte(0x4A);
    } else if b == 0x4B {
      assert Crc8Tab[0x4B] == ShiftByte(0x4B);
    } else if b == 0x4C {
      assert Crc8Tab[0x4C] == ShiftByte(0x4C);
    } else if b == 0x4D {
      assert Crc8Tab[0x4D] == ShiftByte(0x4D);
    } else if b == 0x4E {
      assert Crc8Tab[0x4E] == ShiftByte(0x4E);
    } else {
      assert Crc8Tab[0x4F] == ShiftByte(0x4F);
    }
  }

  lemma TableRow5IsBitwise(b: Byte)
    requires 0x50 <= b <= 0x5F
    ensures Crc8Tab[b as int] == ShiftByte(b)
  {
    if b == 0x50 {
      assert Crc8Tab[0x50] == ShiftByte(0x50);
    } else if b == 0x51 {
      assert Crc8Tab[0x51] == ShiftByte(0x51);
    } else if b == 0x52 {
      assert Crc8Tab[0x52] == ShiftByte(0x52);
    } else if b == 0x53 {
      assert Crc8Tab[0x53] == ShiftByte(0x53);
    } else if b == 0x54 {
      assert Crc8Tab[0x54] == ShiftByte(0x54);
    } else if b == 0x55 {
      assert Crc8Tab[0x55] == ShiftByte(0x55);
    } else if b == 0x56 {
      assert Crc8Tab[0x56] == ShiftByte(0x56);
    } else if b == 0x57 {
      assert Crc8Tab[0x57] == ShiftByte(0x57);
    } else if b == 0x58 {
      assert Crc8Tab[0x58] == ShiftByte(0x58);
    } else if b == 0x59 {
      assert Crc8Tab[0x59] == ShiftByte(0x59);
    } else if b == 0x5A {
      assert Crc8Tab[0x5A] == ShiftByte(0x5A);
    } else if b == 0x5B {
      assert Crc8Tab[0x5B] == ShiftByte(0x5B);
    } else if b == 0x5C {
      assert Crc8Tab[0x5C] == ShiftByte(0x5C);
    } else if b == 0x5D {
      assert Crc8Tab[0x5D] == ShiftByte(0x5D);
    } else if b == 0x5E {
      assert Crc8Tab[0x5E] == ShiftByte(0x5E);
    } else {
      assert Crc8Tab[0x5F] == ShiftByte(0x5F);
    }
  }

  lemma TableRow6IsBitwise(b: Byte)
    requires 0x60 <= b <= 0x6F
    ensures Crc8Tab[b as int] == ShiftByte(b)
  {
    if b == 0x60 {
      assert Crc8Tab[0x60] == ShiftByte(0x60);
    } else if b == 0x61 {
      assert Crc8Tab[0x61] == ShiftByte(0x61);
    } else if b == 0x62 {
      assert Crc8Tab[0x62] == ShiftByte(0x62);
    } else if b == 0x63 {
      assert Crc8Tab[0x63] == ShiftByte(0x63);
    } else if b == 0x64 {
      assert Crc8Tab[0x64] == ShiftByte(0x64);
    } else if b == 0x65 {
      assert Crc8Tab[0x65] == ShiftByte(0x65);
    } else if b == 0x66 {
      assert Crc8Tab[0x66] == ShiftByte(0x66);
    } else if b == 0x67 {
      assert Crc8Tab[0x67] == ShiftByte(0x67);
    } else if b == 0x68 {
      assert Crc8Tab[0x68] == ShiftByte(0x68);
    } else if b == 0x69 {
      assert Crc8Tab[0x69] == ShiftByte(0x69);
    } else if b == 0x6A {
      assert Crc8Tab[0x6A] == ShiftByte(0x6A);
    } else if b == 0x6B {
      assert Crc8Tab[0x6B] == ShiftByte(0x6B);
    } else if b == 0x6C {
      assert Crc8Tab[0x6C] == ShiftByte(0x6C);
    } else if b == 0x6D {
      assert Crc8Tab[0x6D] == ShiftByte(0x6D);
    } else if b == 0x6E {
      assert Crc8Tab[0x6E] == ShiftByte(0x6E);
    } else {
      assert Crc8Tab[0x6F] == ShiftByte(0x6F);
    }
  }

  lemma TableRow7IsBitwise(b: Byte)
    requires 0x70 <= b <= 0x7F
    ensures Crc8Tab[b as int] == ShiftByte(b)
  {
    if b == 0x70 {
      assert Crc8Tab[0x70] == ShiftByte(0x70);
    } else if b == 0x71 {
      assert Crc8Tab[0x71] == ShiftByte(0x71);
    } else if b == 0x72 {
      assert Crc8Tab[0x72] == ShiftByte(0x72);
    } else if b == 0x73 {
      assert Crc8Tab[0x73] == ShiftByte(0x73);
    } else if b == 0x74 {
      assert Crc8Tab[0x74] == ShiftByte(0x74);
    } else if b == 0x75 {
      assert Crc8Tab[0x75] == ShiftByte(0x75);
    } else if b == 0x76 {
      assert Crc8Tab[0x76] == ShiftByte(0x76);
    } else if b == 0x77 {
      assert Crc8Tab[0x77] == ShiftByte(0x77);
    } else if b == 0x78 {
      assert Crc8Tab[0x78] == ShiftByte(0x78);
    } else if b == 0x79 {
      assert Crc8Tab[0x79] == ShiftByte(0x79);
    } else if b == 0x7A {
      assert Crc8Tab[0x7A] == ShiftByte(0x7A);
    } else if b == 0x7B {
      assert Crc8Tab[0x7B] == ShiftByte(0x7B);
    } else if b == 0x7C {
      assert Crc8Tab[0x7C] == ShiftByte(0x7C);
    } else if b == 0x7D {
      assert Crc8Tab[0x7D] == ShiftByte(0x7D);
    } else if b == 0x7E {
      assert Crc8Tab[0x7E] == ShiftByte(0x7E);
    } else {
      assert Crc8Tab[0x7F] == ShiftByte(0x7F);
    }
  }

  lemma TableRow8IsBitwise(b: Byte)
    requires 0x80 <= b <= 0x8F
    ensures Crc8Tab[b as int] == ShiftByte(b)
  {
    if b == 0x80 {
      assert Crc8Tab[0x80] == ShiftByte(0x80);
    } else if b == 0x81 {
      assert Crc8Tab[0x81] == ShiftByte(0x81);
    } else if b == 0x82 {
      assert Crc8Tab[0x82] == ShiftByte(0x82);
    } else if b == 0x83 {
      assert Crc8Tab[0x83] == ShiftByte(0x83);
    } else if b == 0x84 {
      assert Crc8Tab[0x84] == ShiftByte(0x84);
    } else if b == 0x85 {
      assert Crc8Tab[0x85] == ShiftByte(0x85);
    } else if b == 0x86 {
      assert Crc8Tab[0x86] == ShiftByte(0x86);
    } else if b == 0x87 {
      assert Crc8Tab[0x87] == ShiftByte(0x87);
    } else if b == 0x88 {
      assert Crc8Tab[0x88] == ShiftByte(0x88);
    } else if b == 0x89 {
      assert Crc8Tab[0x89] == ShiftByte(0x89);
    } else if b == 0x8A {
      assert Crc8Tab[0x8A] == ShiftByte(0x8A);
    } else if b == 0x8B {
      assert Crc8Tab[0x8B] == ShiftByte(0x8B);
    } else if b == 0x8C {
      assert Crc8Tab[0x8C] == ShiftByte(0x8C);
    } else if b == 0x8D {
      assert Crc8Tab[0x8D] == ShiftByte(0x8D);
    } else if b == 0x8E {
      assert Crc8Tab[0x8E] == ShiftByte(0x8E);
    } else {
      assert Crc8Tab[0x8F] == ShiftByte(0x8F);
    }
  }

  lemma TableRow9IsBitwise(b: Byte)
    requires 0x90 <= b <= 0x9F
    ensures Crc8Tab[b as int] == ShiftByte(b)
  {
    if b == 0x90 {
      assert Crc8Tab[0x90] == ShiftByte(0x90);
    } else if b == 0x91 {
      assert Crc8Tab[0x91] == ShiftByte(0x91);
    } else if b == 0x92 {
      assert Crc8Tab[0x92] == ShiftByte(0x92);
    } else if b == 0x93 {
      assert Crc8Tab[0x93] == ShiftByte(0x93);
    } else if b == 0x94 {
      assert Crc8Tab[0x94] == ShiftByte(0x94);
    } else if b == 0x95 {
      assert Crc8Tab[0x95] == ShiftByte(0x95);
    } else if b == 0x96 {
      assert Crc8Tab[0x96] == ShiftByte(0x96);
    } else if b == 0x97 {
      assert Crc8Tab[0x97] == ShiftByte(0x97);
    } else if b == 0x98 {
      assert Crc8Tab[0x98] == ShiftByte(0x98);
    } else if b == 0x99 {
      assert Crc8Tab[0x99] == ShiftByte(0x99);
    } else if b == 0x9A {
      assert Crc8Tab[0x9A] == ShiftByte(0x9A);
    } else if b == 0x9B {
      assert Crc8Tab[0x9B] == ShiftByte(0x9B);
    } else if b == 0x9C {
      assert Crc8Tab[0x9C] == ShiftByte(0x9C);
    } else if b == 0x9D {
      assert Crc8Tab[0x9D] == ShiftByte(0x9D);
    } else if b == 0x9E {
      assert Crc8Tab[0x9E] == ShiftByte(0x9E);
    } else {
      assert Crc8Tab[0x9F] == ShiftByte(0x9F);
    }
  }

  lemma TableRowAIsBitwise(b: Byte)
    requires 0xA0 <= b <= 0xAF
    ensures Crc8Tab[b as int] == ShiftByte(b)
  {
    if b == 0xA0 {
      assert Crc8Tab[0xA0] == ShiftByte(0xA0);
    } else if b == 0xA1 {
      assert Crc8Tab[0xA1] == ShiftByte(0xA1);
    } else if b == 0xA2 {
      assert Crc8Tab[0xA2] == ShiftByte(0xA2);
    } else if b == 0xA3 {
      assert Crc8Tab[0xA3] == ShiftByte(0xA3);
    } else if b == 0xA4 {
      assert Crc8Tab[0xA4] == ShiftByte(0xA4);
    } else if b == 0xA5 {
      assert Crc8Tab[0xA5] == ShiftByte(0xA5);
    } else if b == 0xA6 {
      assert Crc8Tab[0xA6] == ShiftByte(0xA6);
    } else if b == 0xA7 {
      assert Crc8Tab[0xA7] == ShiftByte(0xA7);
    } else if b == 0xA8 {
      assert Crc8Tab[0xA8] == ShiftByte(0xA8);
    } else if b == 0xA9 {
      assert Crc8Tab[0xA9] == ShiftByte(0xA9);
    } else if b == 0xAA {
      assert Crc8Tab[0xAA] == ShiftByte(0xAA);
    } else if b == 0xAB {
      assert Crc8Tab[0xAB] == ShiftByte(0xAB);
    } else if b == 0xAC {
      assert Crc8Tab[0xAC] == ShiftByte(0xAC);
    } else if b == 0xAD {
      assert Crc8Tab[0xAD] == ShiftByte(0xAD);
    } else if b == 0xAE {
      assert Crc8Tab[0xAE] == ShiftByte(0xAE);
    } else {
      assert Crc8Tab[0xAF] == ShiftByte(0xAF);
    }
  }

  lemma TableRowBIsBitwise(b: Byte)
    requires 0xB0 <= b <= 0xBF
    ensures Crc8Tab[b as int] == ShiftByte(b)
  {
    if b == 0xB0 {
      assert Crc8Tab[0xB0] == ShiftByte(0xB0);
    } else if b == 0xB1 {
      assert Crc8Tab[0xB1] == ShiftByte(0xB1);
    } else if b == 0xB2 {
      assert Crc8Tab[0xB2] == ShiftByte(0xB2);
    } else if b == 0xB3 {
      assert Crc8Tab[0xB3] == ShiftByte(0xB3);
    } else if b == 0xB4 {
      assert Crc8Tab[0xB4] == ShiftByte(0xB4);
    } else if b == 0xB5 {
      assert Crc8Tab[0xB5] == ShiftByte(0xB5);
    } else if b == 0xB6 {
      assert Crc8Tab[0xB6] == ShiftByte(0xB6);
    } else if b == 0xB7 {
      assert Crc8Tab[0xB7] == ShiftByte(0xB7);
    } else if b == 0xB8 {
      assert Crc8Tab[0xB8] == ShiftByte(0xB8);
    } else if b == 0xB9 {
      assert Crc8Tab[0xB9] == ShiftByte(0xB9);
    } else if b == 0xBA {
      assert Crc8Tab[0xBA] == ShiftByte(0xBA);
    } else if b == 0xBB {
      assert Crc8Tab[0xBB] == ShiftByte(0xBB);
    } else if b == 0xBC {
      assert Crc8Tab[0xBC] == ShiftByte(0xBC);
    } else if b == 0xBD {
      assert Crc8Tab[0xBD] == ShiftByte(0xBD);
    } else if b == 0xBE {
      assert Crc8Tab[0xBE] == ShiftByte(0xBE);
    } else {
      assert Crc8Tab[0xBF] == ShiftByte(0xBF);
    }
  }

  lemma TableRowCIsBitwise(b: Byte)
    requires 0xC0 <= b <= 0xCF
    ensures Crc8Tab[b as int] == ShiftByte(b)
  {
    if b == 0xC0 {
      assert Crc8Tab[0xC0] == ShiftByte(0xC0);
    } else if b == 0xC1 {
      assert Crc8Tab[0xC1] == ShiftByte(0xC1);
    } else if b == 0xC2 {
      assert Crc8Tab[0xC2] == ShiftByte(0xC2);
    } else if b == 0xC3 {
      assert Crc8Tab[0xC3] == ShiftByte(0xC3);
    } else if b == 0xC4 {
      assert Crc8Tab[0xC4] == ShiftByte(0xC4);
    } else if b == 0xC5 {
      assert Crc8Tab[0xC5] == ShiftByte(0xC5);
    } else if b == 0xC6 {
      assert Crc8Tab[0xC6] == ShiftByte(0xC6);
    } else if b == 0xC7 {
      assert Crc8Tab[0xC7] == ShiftByte(0xC7);
    } else if b == 0xC8 {
      assert Crc8Tab[0xC8] == ShiftByte(0xC8);
    } else if b == 0xC9 {
      assert Crc8Tab[0xC9] == ShiftByte(0xC9);
    } else if b == 0xCA {
      assert Crc8Tab[0xCA] == ShiftByte(0xCA);
    } else if b == 0xCB {
      assert Crc8Tab[0xCB] == ShiftByte(0xCB);
    } else if b == 0xCC {
      assert Crc8Tab[0xCC] == ShiftByte(0xCC);
    } else if b == 0xCD {
      assert Crc8Tab[0xCD] == ShiftByte(0xCD);
    } else if b == 0xCE {
      assert Crc8Tab[0xCE] == ShiftByte(0xCE);
    } else {
      assert Crc8Tab[0xCF] == ShiftByte(0xCF);
    }
  }

  lemma TableRowDIsBitwise(b: Byte)
    requires 0xD0 <= b <= 0xDF
    ensures Crc8Tab[b as int] == ShiftByte(b)
  {
    if b == 0xD0 {
      assert Crc8Tab[0xD0] == ShiftByte(0xD0);
    } else if b == 0xD1 {
      assert Crc8Tab[0xD1] == ShiftByte(0xD1);
    } else if b == 0xD2 {
      assert Crc8Tab[0xD2] == ShiftByte(0xD2);
    } else if b == 0xD3 {
      assert Crc8Tab[0xD3] == ShiftByte(0xD3);
    } else if b == 0xD4 {
      assert Crc8Tab[0xD4] == ShiftByte(0xD4);
    } else if b == 0xD5 {
      assert Crc8Tab[0xD5] == ShiftByte(0xD5);
    } else if b == 0xD6 {
      assert Crc8Tab[0xD6] == ShiftByte(0xD6);
    } else if b == 0xD7 {
      assert Crc8Tab[0xD7] == ShiftByte(0xD7);
    } else if b == 0xD8 {
      assert Crc8Tab[0xD8] == ShiftByte(0xD8);
    } else if b == 0xD9 {
      assert Crc8Tab[0xD9] == ShiftByte(0xD9);
    } else if b == 0xDA {
      assert Crc8Tab[0xDA] == ShiftByte(0xDA);
    } else if b == 0xDB {
      assert Crc8Tab[0xDB] == ShiftByte(0xDB);
    } else if b == 0xDC {
      assert Crc8Tab[0xDC] == ShiftByte(0xDC);
    } else if b == 0xDD {
      assert Crc8Tab[0xDD] == ShiftByte(0xDD);
    } else if b == 0xDE {
      assert Crc8Tab[0xDE] == ShiftByte(0xDE);
    } else {
      assert Crc8Tab[0xDF] == ShiftByte(0xDF);
    }
  }

  lemma TableRowEIsBitwise(b: Byte)
    requires 0xE0 <= b <= 0xEF
    ensures Crc8Tab[b as int] == ShiftByte(b)
  {
    if b == 0xE0 {
      assert Crc8Tab[0xE0] == ShiftByte(0xE0);
    } else if b == 0xE1 {
      assert Crc8Tab[0xE1] == ShiftByte(0xE1);
    } else if b == 0xE2 {
      assert Crc8Tab[0xE2] == ShiftByte(0xE2);
    } else if b == 0xE3 {
      assert Crc8Tab[0xE3] == ShiftByte(0xE3);
    } else if b == 0xE4 {
      assert Crc8Tab[0xE4] == ShiftByte(0xE4);
    } else if b == 0xE5 {
      assert Crc8Tab[0xE5] == ShiftByte(0xE5);
    } else if b == 0xE6 {
      assert Crc8Tab[0xE6] == ShiftByte(0xE6);
    } else if b == 0xE7 {
      assert Crc8Tab[0xE7] == ShiftByte(0xE7);
    } else if b == 0xE8 {
      assert Crc8Tab[0xE8] == ShiftByte(0xE8);
    } else if b == 0xE9 {
      assert Crc8Tab[0xE9] == ShiftByte(0xE9);
    } else if b == 0xEA {
      assert Crc8Tab[0xEA] == ShiftByte(0xEA);
    } else if b == 0xEB {
      assert Crc8Tab[0xEB] == ShiftByte(0xEB);
    } else if b == 0xEC {
      assert Crc8Tab[0xEC] == ShiftByte(0xEC);
    } else if b == 0xED {
      assert Crc8Tab[0xED] == ShiftByte(0xED);
    } else if b == 0xEE {
      assert Crc8Tab[0xEE] == ShiftByte(0xEE);
    } else {
      assert Crc8Tab[0xEF] == ShiftByte(0xEF);
    }
  }

  lemma TableRowFIsBitwise(b: Byte)
    requires 0xF0 <= b <= 0xFF
    ensures Crc8Tab[b as int] == ShiftByte(b)
  {
    if b == 0xF0 {
      assert Crc8Tab[0xF0] == ShiftByte(0xF0);
    } else if b == 0xF1 {
      assert Crc8Tab[0xF1] == ShiftByte(0xF1);
    } else if b == 0xF2 {
      assert Crc8Tab[0xF2] == ShiftByte(0xF2);
    } else if b == 0xF3 {
      assert Crc8Tab[0xF3] == ShiftByte(0xF3);
    } else if b == 0xF4 {
      assert Crc8Tab[0xF4] == ShiftByte(0xF4);
    } else if b == 0xF5 {
      assert Crc8Tab[0xF5] == ShiftByte(0xF5);
    } else if b == 0xF6 {
      assert Crc8Tab[0xF6] == ShiftByte(0xF6);
    } else if b == 0xF7 {
      assert Crc8Tab[0xF7] == ShiftByte(0xF7);
    } else if b == 0xF8 {
      assert Crc8Tab[0xF8] == ShiftByte(0xF8);
    } else if b == 0xF9 {
      assert Crc8Tab[0xF9] == ShiftByte(0xF9);
    } else if b == 0xFA {
      assert Crc8Tab[0xFA] == ShiftByte(0xFA);
    } else if b == 0xFB {
      assert Crc8Tab[0xFB] == ShiftByte(0xFB);
    } else if b == 0xFC {
      assert Crc8Tab[0xFC] == ShiftByte(0xFC);
    } else if b == 0xFD {
      assert Crc8Tab[0xFD] == ShiftByte(0xFD);
    } else if b == 0xFE {
      assert Crc8Tab[0xFE] == ShiftByte(0xFE);
    } else {
      assert Crc8Tab[0xFF] == ShiftByte(0xFF);
    }
  }

  /** Every entry of `crc8tab` is the bitwise CRC-8 of its index. */
  lemma TableIsBitwise(b: Byte)
    ensures |Crc8Tab| == 256 && Crc8Tab[b as int] == ShiftByte(b)
  {
    if b < 0x10 { TableRow0IsBitwise(b); }
    else if b < 0x20 { TableRow1IsBitwise(b); }
    else if b < 0x30 { TableRow2IsBitwise(b); }
    else if b < 0x40 { TableRow3IsBitwise(b); }
    else if b < 0x50 { TableRow4IsBitwise(b); }
    else if b < 0x60 { TableRow5IsBitwise(b); }
    else if b < 0x70 { TableRow6IsBitwise(b); }
    else if b < 0x80 { TableRow7IsBitwise(b); }
    else if b < 0x90 { TableRow8IsBitwise(b); }
    else if b < 0xA0 { TableRow9IsBitwise(b); }
    else if b < 0xB0 { TableRowAIsBitwise(b); }
    else if b < 0xC0 { TableRowBIsBitwise(b); }
    else if b < 0xD0 { TableRowCIsBitwise(b); }
    else if b < 0xE0 { TableRowDIsBitwise(b); }
    else if b < 0xF0 { TableRowEIsBitwise(b); }
    else { TableRowFIsBitwise(b); }
  }

  // ---------------------------------------------------------------------------
  // Properties of the CRC.

  /** The CRC over a concatenation continues from the CRC of the first part. */
  lemma {:induction false} BitwiseFoldAppend(crc: Byte, a: seq<Byte>, b: seq<Byte>)
    ensures BitwiseFold(crc, a + b) == BitwiseFold(BitwiseFold(crc, a), b)
    decreases |a|
  {
    if a == [] {
      assert a + b == b;
    } else {
      assert (a + b)[1..] == a[1..] + b;
      BitwiseFoldAppend(ShiftByte(crc ^ a[0]), a[1..], b);
    }
  }

  /** `CalcCRC` is compositional: the CRC of `a + b` is the table loop over `b` started
      from the CRC of `a`. */
  lemma Compositional(a: seq<Byte>, b: seq<Byte>)
    ensures Crc8(a + b) == Fold(Crc8(a), b)
  {
    BitwiseFoldAppend(0, a, b);
  }

  /** The table fold over a concatenation continues from the fold of the first part. */
  lemma FoldAppend(crc: Byte, a: seq<Byte>, b: seq<Byte>)
    ensures Fold(crc, a + b) == Fold(Fold(crc, a), b)
  {
    BitwiseFoldAppend(crc, a, b);
  }

  lemma ShiftByteInjective(r: bv8, s: bv8)
    ensures ShiftByte(r) == ShiftByte(s) ==> r == s
  {
  }

  /** Distinct table indices give distinct table entries. */
  lemma TableInjective(x: Byte, y: Byte)
    ensures Crc8Tab[x as int] == Crc8Tab[y as int] ==> x == y
  {
    TableIsBitwise(x);
    TableIsBitwise(y);
    ShiftByteInjective(x, y);
  }

  /** Two different register values stay different over any further bytes. */
  lemma {:induction false} BitwiseFoldInjective(crc: Byte, crc': Byte, data: seq<Byte>)
    ensures BitwiseFold(crc, data) == BitwiseFold(crc', data) ==> crc == crc'
    decreases |data|
  {
    if data != [] {
      BitwiseFoldInjective(ShiftByte(crc ^ data[0]), ShiftByte(crc' ^ data[0]), data[1..]);
      ShiftByteInjective(crc ^ data[0], crc' ^ data[0]);
    }
  }

  /** Changing any one byte of a range (in particular flipping any one of its bits)
      changes its CRC. */
  lemma DetectsSingleByteError(prefix: seq<Byte>, x: Byte, y: Byte, suffix: seq<Byte>)
    requires x != y
    ensures Crc8(prefix + [x] + suffix) != Crc8(prefix + [y] + suffix)
  {
    var c := Crc8(prefix);
    StepInjective(c, x, y);
    var cx, cy := BitwiseFold(c, [x]), BitwiseFold(c, [y]);
    BitwiseFoldAppend(0, prefix + [x], suffix);
    BitwiseFoldAppend(0, prefix + [y], suffix);
    BitwiseFoldAppend(0, prefix, [x]);
    BitwiseFoldAppend(0, prefix, [y]);
    BitwiseFoldInjective(cx, cy, suffix);
  }

  /** One step of the register with two different input bytes gives two different registers. */
  lemma StepInjective(c: Byte, x: Byte, y: Byte)
    requires x != y
    ensures BitwiseFold(c, [x]) != BitwiseFold(c, [y])
  {
    XorInjective(c, x, y);
    SingleStep(c, x);
    SingleStep(c, y);
    ShiftByteInjective(c ^ x, c ^ y);
  }

  lemma XorInjective(c: Byte, x: Byte, y: Byte)
    requires x != y
    ensures c ^ x != c ^ y
  {
  }

  /** The CRC of a single byte continued from register `c`. */
  lemma SingleStep(c: Byte, x: Byte)
    ensures BitwiseFold(c, [x]) == ShiftByte(c ^ x)
  {
    assert [x][1..] == [];
  }

  /** The receiver's check: a range followed by a CRC byte has CRC 0 exactly when that
      byte is the CRC of the range (`crc8tab[0] == 0`). */
  lemma CheckByte(data: seq<Byte>, c: Byte)
    ensures Crc8(data + [c]) == 0 <==> c == Crc8(data)
  {
    var d := Crc8(data);
    BitwiseFoldAppend(0, data, [c]);
    SingleStep(d, c);
    ShiftByteInjective(d ^ c, 0);
  }

  /** The CRC of a range of zero bytes is the seed 0. */
  lemma {:induction false} CrcOfZeros(n: nat)
    ensures Crc8(seq(n, i => 0)) == 0
  {
    if n > 0 {
      var z := seq(n, i => 0 as Byte);
      assert z == seq(n - 1, i => 0 as Byte) + [0];
      BitwiseFoldAppend(0, seq(n - 1, i => 0 as Byte), [0]);
      CrcOfZeros(n - 1);
      assert BitwiseFold(0, [0]) == ShiftByte(0) by { assert [0 as Byte][1..] == []; }
    }
  }

  /** `CalcCRC(data, length)`, with the address `data` given as a buffer and an offset
      into it. The loop counter is a `uint8_t`: a length above 255 would never end the
      loop, so callers must stay at or below it; a length of 0 or less gives the seed 0. */
  method CalcCRC(buffer: array<Byte>, offset: nat, length: int) returns (crc: Byte)
    requires length <= 255
    requires offset + (if length < 0 then 0 else length) <= buffer.Length
    ensures crc == Crc8(buffer[offset .. offset + (if length < 0 then 0 else length)])
  {
    crc := 0;
    var i: uint8 := 0;
    while i < length
      invariant i <= (if length < 0 then 0 else length)
      invariant crc == Crc8(buffer[offset .. offset + i])
    {
      var b := buffer[offset + i];
      BitwiseFoldAppend(0, buffer[offset .. offset + i], [b]);
      assert buffer[offset .. offset + i + 1] == buffer[offset .. offset + i] + [b];
      SingleStep(crc, b);
      TableIsBitwise(crc ^ b);
      crc := Crc8Tab[(crc ^ b) as int];
      i := i + 1;
    }
  }
}
