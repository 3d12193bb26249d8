/** The tables as docs/compress.c holds them. */
module SourceTables {
  import opened Powers
  import opened Bits
  import opened Decoders
  import opened InflateSpec

  const TABLE1: seq<Row> := [
      Row(0xa0000000, 2),
      Row(0x60000000, 6),
      Row(0x40000000, 10),
      Row(0x20000000, 18),
      Row(0x12000000, 25),
      Row(0x0c000000, 31),
      Row(0x07000000, 41),
      Row(0x03000000, 57),
      Row(0x01600000, 70),
      Row(0x00f00000, 77),
      Row(0x00c00000, 83),
      Row(0x00b00000, 87),
      Row(0x00a00000, 95),
      Row(0x00000000, 255)
    ]

  const TABLE2_HEAD: seq<Byte> := [
      0x08, 0x09, 0x0A, 0x00, 0x07, 0x0B, 0x0C, 0x06, 0x29, 0x2A, 0xE0, 0x04, 0x05, 0x20, 0x28, 0x2B,
      0x2C, 0x40, 0x4A, 0x03, 0x0D, 0x25, 0x26, 0x27, 0x48, 0x49, 0x24, 0x47, 0x4B, 0x4C, 0x69, 0x6A,
      0x23, 0x46, 0x60, 0x63, 0x67, 0x68, 0x88, 0x89, 0xA0, 0xE8, 0x01, 0x02, 0x2D, 0x43, 0x44, 0x45,
      0x65, 0x66, 0x80, 0x87, 0x8A, 0xA8, 0xA9, 0xC0, 0xC9, 0xE9, 0x0E, 0x4D, 0x64, 0x6B, 0x6C, 0x84,
      0x85, 0x8B, 0xA4, 0xA5, 0xAA, 0xC8, 0xE5, 0x83, 0x86, 0xA6, 0xA7, 0xC7, 0xCA, 0xE7, 0x22, 0x2E,
      0x8C, 0xC4, 0xE4, 0xE6, 0x4E, 0x6D, 0xC6, 0xEC, 0x0F, 0x10, 0x11, 0x8D, 0xAB, 0xAC, 0xCC, 0xEA
    ]

  const TABLE2_MIDDLE: seq<Byte> := [
      0x12, 0x13, 0x14, 0x15, 0x16, 0x17, 0x18, 0x19, 0x1A, 0x1B, 0x1C, 0x1D, 0x1E, 0x1F, 0x21, 0x2F,
      0x30, 0x31, 0x32, 0x33, 0x34, 0x35, 0x36, 0x37, 0x38, 0x39, 0x3A, 0x3B, 0x3C, 0x3D, 0x3E, 0x3F,
      0x41
    ]

  const TABLE2_TAIL: seq<Byte> := [
      0x42, 0x4F, 0x50, 0x51, 0x52, 0x53, 0x54, 0x55, 0x56, 0x57, 0x58, 0x59, 0x5A, 0x5B, 0x5C, 0x5D,
      0x5E, 0x5F, 0x61, 0x62, 0x6E, 0x6F, 0x70, 0x71, 0x72, 0x73, 0x74, 0x75, 0x76, 0x77, 0x78, 0x79,
      0x7A, 0x7B, 0x7C, 0x7D, 0x7E, 0x7F, 0x81, 0x82, 0x8E, 0x8F, 0x90, 0x91, 0x92, 0x93, 0x94, 0x95,
      0x96, 0x97, 0x98, 0x99, 0x9A, 0x9B, 0x9C, 0x9D, 0x9E, 0x9F, 0xA1, 0xA2, 0xA3, 0xAD, 0xAE, 0xAF,
      0xB0, 0xB1, 0xB2, 0xB3, 0xB4, 0xB5, 0xB6, 0xB7, 0xB8, 0xB9, 0xBA, 0xBB, 0xBC, 0xBD, 0xBE, 0xBF,
      0xC1, 0xC2, 0xC3, 0xC5, 0xCB, 0xCD, 0xCE, 0xCF, 0xD0, 0xD1, 0xD2, 0xD3, 0xD4, 0xD5, 0xD6, 0xD7,
      0xD8, 0xD9, 0xDA, 0xDB, 0xDC, 0xDD, 0xDE, 0xDF, 0xE1, 0xE2, 0xE3, 0xEB, 0xED, 0xEE, 0xEF, 0xF0,
      0xF1, 0xF2, 0xF3, 0xF4, 0xF5, 0xF6, 0xF7, 0xF8, 0xF9, 0xFA, 0xFB, 0xFC, 0xFD, 0xFE, 0xFF
    ]

  const TABLE2: seq<Byte> := TABLE2_HEAD + TABLE2_MIDDLE + TABLE2_TAIL

  const TABLE3: seq<nat> := [
      0x00, 0x01, 0x02, 0x03, 0x04, 0x05, 0x06, 0x07, 0x08, 0x0A, 0x0C, 0x0E, 0x10, 0x14, 0x18, 0x1C,
      0x20, 0x28, 0x30, 0x38, 0x40, 0x50, 0x60, 0x70, 0x80, 0xA0, 0xC0, 0xE0, 0xFF, 0x00, 0x00, 0x00
    ]

  const EXTRA_BITS_LENGTH: seq<nat> := [
      0x00, 0x00, 0x00, 0x00, 0x00, 0x00, 0x00, 0x00, 0x01, 0x01, 0x01, 0x01, 0x02, 0x02, 0x02, 0x02,
      0x03, 0x03, 0x03, 0x03, 0x04, 0x04, 0x04, 0x04, 0x05, 0x05, 0x05, 0x05, 0x00
    ]

  const EXTRA_BITS_DISTANCE: seq<nat> := [
      0x00, 0x00, 0x00, 0x00, 0x01, 0x01, 0x02, 0x02, 0x03, 0x03, 0x04, 0x04, 0x05, 0x05, 0x06, 0x06,
      0x07, 0x07, 0x08, 0x08, 0x09, 0x09, 0x0A, 0x0A, 0x0B, 0x0B, 0x0C, 0x0C, 0x0D, 0x0D, 0x0E, 0x0E
    ]

  const BACKTRACK_BASES: seq<nat> := [
      0x0000, 0x0001, 0x0002, 0x0003, 0x0004, 0x0006, 0x0008, 0x000C,
      0x0010, 0x0018, 0x0020, 0x0030, 0x0040, 0x0060, 0x0080, 0x00C0,
      0x0100, 0x0180, 0x0200, 0x0300, 0x0400, 0x0600, 0x0800, 0x0C00,
      0x1000, 0x1800, 0x2000, 0x3000, 0x4000, 0x6000
    ]

  const BACKTRACK_REST: seq<nat> := [
      0x0100, 0x0302,
      0x0504, 0x0706, 0x0A08, 0x0E0C, 0x1410, 0x1C18, 0x2820, 0x3830,
      0x5040, 0x7060, 0xA080, 0xE0C0, 0x00FF, 0x0000
    ]

  const BACKTRACK_TABLE: seq<nat> := BACKTRACK_BASES + BACKTRACK_REST

  const SOURCE_TABLES: CodeTables :=
    CodeTables(TABLE1, TABLE2, TABLE3, EXTRA_BITS_LENGTH, EXTRA_BITS_DISTANCE, BACKTRACK_TABLE)

  lemma RowShift(x: nat, k: nat, q: nat)
    requires x == q * Pow2(k) + Pow2(k) - 1
    ensures Shr(x, k) == q
  {
    ShrMultiple(q, Pow2(k), k, Pow2(k) - 1);
  }

  /** How far each row reaches, in units of its own codewords. */
  lemma RowShifts()
    ensures Shr(0x5fffffff, 29) == 2
    ensures Shr(0x3fffffff, 28) == 3
    ensures Shr(0x1fffffff, 27) == 3
    ensures Shr(0x1fffffff, 26) == 7
    ensures Shr(0x0dffffff, 25) == 6
    ensures Shr(0x05ffffff, 24) == 5
    ensures Shr(0x04ffffff, 23) == 9
    ensures Shr(0x03ffffff, 22) == 15
    ensures Shr(0x019fffff, 21) == 12
    ensures Shr(0x006fffff, 20) == 6
    ensures Shr(0x002fffff, 19) == 5
    ensures Shr(0x000fffff, 18) == 3
    ensures Shr(0x000fffff, 17) == 7
    ensures Shr(0x009fffff, 16) == 159
  {
    assert Pow2(29) == 0x2000_0000 by {
      Pow2Values();
      Pow2Add(29, 3);
      assert Pow2(3) == 8;
    }
    RowShift(0x5fffffff, 29, 2);
    RowShift(0x3fffffff, 28, 3);
    RowShift(0x1fffffff, 27, 3);
    RowShift(0x1fffffff, 26, 7);
    RowShift(0x0dffffff, 25, 6);
    RowShift(0x05ffffff, 24, 5);
    RowShift(0x04ffffff, 23, 9);
    RowShift(0x03ffffff, 22, 15);
    RowShift(0x019fffff, 21, 12);
    RowShift(0x006fffff, 20, 6);
    RowShift(0x002fffff, 19, 5);
    RowShift(0x000fffff, 18, 3);
    RowShift(0x000fffff, 17, 7);
    RowShift(0x009fffff, 16, 159);
  }

  lemma RowsOk(k: nat)
    requires k < |TABLE1|
    ensures |TABLE1| == 14 && RowOk(TABLE1, k)
  {
    RowShifts();
  }

  lemma SmallTables()
    ensures |TABLE3| == 32 && |EXTRA_BITS_LENGTH| == 29 && |EXTRA_BITS_DISTANCE| == 32
    ensures |BACKTRACK_BASES| == 30 && |BACKTRACK_TABLE| == 46
    ensures forall i :: 0 <= i < 29 ==> EXTRA_BITS_LENGTH[i] <= 31
    ensures forall i :: 0 <= i < 32 ==> EXTRA_BITS_DISTANCE[i] <= 31
  {
    assert |BACKTRACK_REST| == 16;
  }

  lemma Table2Size()
    ensures |TABLE2| == 256 && TABLE2[95] == 0xEA && TABLE2[128] == 0x41
  {
    assert |TABLE2_HEAD| == 96 && |TABLE2_MIDDLE| == 33 && |TABLE2_TAIL| == 127;
    assert TABLE2_HEAD[95] == 0xEA && TABLE2_MIDDLE[32] == 0x41;
  }

  /** What the decompressor relies on holds of them. */
  lemma SourceTablesOk()
    ensures TablesOk(SOURCE_TABLES)
  {
    hide TABLE2, TABLE3, EXTRA_BITS_LENGTH, EXTRA_BITS_DISTANCE, BACKTRACK_TABLE, RowOk;
    Table2Size();
    SmallTables();
    assert |TABLE1| == 14 && TABLE1[13].firstEncoding == 0;
    forall k | 0 <= k < 14
      ensures RowOk(TABLE1, k)
    {
      RowsOk(k);
    }
  }
}
