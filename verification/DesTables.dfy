/** The substitution tables of the cipher, as the codec holds them. */
module DesTables {
  import opened Des

  /** One entry of four in a row. */
  function Of4(i: bv6, a: bv32, b: bv32, c: bv32, d: bv32): bv32 {
    if i & 2 == 0 then (if i & 1 == 0 then a else b) else (if i & 1 == 0 then c else d)
  }

  /** One row of four. */
  function Row(i: bv6, a: bv32, b: bv32, c: bv32, d: bv32): bv32 {
    if i & 8 == 0 then (if i & 4 == 0 then a else b) else (if i & 4 == 0 then c else d)
  }

  function Sp1(i: bv6): bv32 {
    if i < 16 then Row(i,
      Of4(i, 0x0101_0400, 0x0000_0000, 0x0001_0000, 0x0101_0404),
      Of4(i, 0x0101_0004, 0x0001_0404, 0x0000_0004, 0x0001_0000),
      Of4(i, 0x0000_0400, 0x0101_0400, 0x0101_0404, 0x0000_0400),
      Of4(i, 0x0100_0404, 0x0101_0004, 0x0100_0000, 0x0000_0004))
    else if i < 32 then Row(i,
      Of4(i, 0x0000_0404, 0x0100_0400, 0x0100_0400, 0x0001_0400),
      Of4(i, 0x0001_0400, 0x0101_0000, 0x0101_0000, 0x0100_0404),
      Of4(i, 0x0001_0004, 0x0100_0004, 0x0100_0004, 0x0001_0004),
      Of4(i, 0x0000_0000, 0x0000_0404, 0x0001_0404, 0x0100_0000))
    else if i < 48 then Row(i,
      Of4(i, 0x0001_0000, 0x0101_0404, 0x0000_0004, 0x0101_0000),
      Of4(i, 0x0101_0400, 0x0100_0000, 0x0100_0000, 0x0000_0400),
      Of4(i, 0x0101_0004, 0x0001_0000, 0x0001_0400, 0x0100_0004),
      Of4(i, 0x0000_0400, 0x0000_0004, 0x0100_0404, 0x0001_0404))
    else Row(i,
      Of4(i, 0x0101_0404, 0x0001_0004, 0x0101_0000, 0x0100_0404),
      Of4(i, 0x0100_0004, 0x0000_0404, 0x0001_0404, 0x0101_0400),
      Of4(i, 0x0000_0404, 0x0100_0400, 0x0100_0400, 0x0000_0000),
      Of4(i, 0x0001_0004, 0x0001_0400, 0x0000_0000, 0x0101_0004))
  }

  function Sp2(i: bv6): bv32 {
    if i < 16 then Row(i,
      Of4(i, 0x8010_8020, 0x8000_8000, 0x0000_8000, 0x0010_8020),
      Of4(i, 0x0010_0000, 0x0000_0020, 0x8010_0020, 0x8000_8020),
      Of4(i, 0x8000_0020, 0x8010_8020, 0x8010_8000, 0x8000_0000),
      Of4(i, 0x8000_8000, 0x0010_0000, 0x0000_0020, 0x8010_0020))
    else if i < 32 then Row(i,
      Of4(i, 0x0010_8000, 0x0010_0020, 0x8000_8020, 0x0000_0000),
      Of4(i, 0x8000_0000, 0x0000_8000, 0x0010_8020, 0x8010_0000),
      Of4(i, 0x0010_0020, 0x8000_0020, 0x0000_0000, 0x0010_8000),
      Of4(i, 0x0000_8020, 0x8010_8000, 0x8010_0000, 0x0000_8020))
    else if i < 48 then Row(i,
      Of4(i, 0x0000_0000, 0x0010_8020, 0x8010_0020, 0x0010_0000),
      Of4(i, 0x8000_8020, 0x8010_0000, 0x8010_8000, 0x0000_8000),
      Of4(i, 0x8010_0000, 0x8000_8000, 0x0000_0020, 0x8010_8020),
      Of4(i, 0x0010_8020, 0x0000_0020, 0x0000_8000, 0x8000_0000))
    else Row(i,
      Of4(i, 0x0000_8020, 0x8010_8000, 0x0010_0000, 0x8000_0020),
      Of4(i, 0x0010_0020, 0x8000_8020, 0x8000_0020, 0x0010_0020),
      Of4(i, 0x0010_8000, 0x0000_0000, 0x8000_8000, 0x0000_8020),
      Of4(i, 0x8000_0000, 0x8010_0020, 0x8010_8020, 0x0010_8000))
  }

  function Sp3(i: bv6): bv32 {
    if i < 16 then Row(i,
      Of4(i, 0x0000_0208, 0x0802_0200, 0x0000_0000, 0x0802_0008),
      Of4(i, 0x0800_0200, 0x0000_0000, 0x0002_0208, 0x0800_0200),
      Of4(i, 0x0002_0008, 0x0800_0008, 0x0800_0008, 0x0002_0000),
      Of4(i, 0x0802_0208, 0x0002_0008, 0x0802_0000, 0x0000_0208))
    else if i < 32 then Row(i,
      Of4(i, 0x0800_0000, 0x0000_0008, 0x0802_0200, 0x0000_0200),
      Of4(i, 0x0002_0200, 0x0802_0000, 0x0802_0008, 0x0002_0208),
      Of4(i, 0x0800_0208, 0x0002_0200, 0x0002_0000, 0x0800_0208),
      Of4(i, 0x0000_0008, 0x0802_0208, 0x0000_0200, 0x0800_0000))
    else if i < 48 then Row(i,
      Of4(i, 0x0802_0200, 0x0800_0000, 0x0002_0008, 0x0000_0208),
      Of4(i, 0x0002_0000, 0x0802_0200, 0x0800_0200, 0x0000_0000),
      Of4(i, 0x0000_0200, 0x0002_0008, 0x0802_0208, 0x0800_0200),
      Of4(i, 0x0800_0008, 0x0000_0200, 0x0000_0000, 0x0802_0008))
    else Row(i,
      Of4(i, 0x0800_0208, 0x0002_0000, 0x0800_0000, 0x0802_0208),
      Of4(i, 0x0000_0008, 0x0002_0208, 0x0002_0200, 0x0800_0008),
      Of4(i, 0x0802_0000, 0x0800_0208, 0x0000_0208, 0x0802_0000),
      Of4(i, 0x0002_0208, 0x0000_0008, 0x0802_0008, 0x0002_0200))
  }

  function Sp4(i: bv6): bv32 {
    if i < 16 then Row(i,
      Of4(i, 0x0080_2001, 0x0000_2081, 0x0000_2081, 0x0000_0080),
      Of4(i, 0x0080_2080, 0x0080_0081, 0x0080_0001, 0x0000_2001),
      Of4(i, 0x0000_0000, 0x0080_2000, 0x0080_2000, 0x0080_2081),
      Of4(i, 0x0000_0081, 0x0000_0000, 0x0080_0080, 0x0080_0001))
    else if i < 32 then Row(i,
      Of4(i, 0x0000_0001, 0x0000_2000, 0x0080_0000, 0x0080_2001),
      Of4(i, 0x0000_0080, 0x0080_0000, 0x0000_2001, 0x0000_2080),
      Of4(i, 0x0080_0081, 0x0000_0001, 0x0000_2080, 0x0080_0080),
      Of4(i, 0x0000_2000, 0x0080_2080, 0x0080_2081, 0x0000_0081))
    else if i < 48 then Row(i,
      Of4(i, 0x0080_0080, 0x0080_0001, 0x0080_2000, 0x0080_2081),
      Of4(i, 0x0000_0081, 0x0000_0000, 0x0000_0000, 0x0080_2000),
      Of4(i, 0x0000_2080, 0x0080_0080, 0x0080_0081, 0x0000_0001),
      Of4(i, 0x0080_2001, 0x0000_2081, 0x0000_2081, 0x0000_0080))
    else Row(i,
      Of4(i, 0x0080_2081, 0x0000_0081, 0x0000_0001, 0x0000_2000),
      Of4(i, 0x0080_0001, 0x0000_2001, 0x0080_2080, 0x0080_0081),
      Of4(i, 0x0000_2001, 0x0000_2080, 0x0080_0000, 0x0080_2001),
      Of4(i, 0x0000_0080, 0x0080_0000, 0x0000_2000, 0x0080_2080))
  }

  function Sp5(i: bv6): bv32 {
    if i < 16 then Row(i,
      Of4(i, 0x0000_0100, 0x0208_0100, 0x0208_0000, 0x4200_0100),
      Of4(i, 0x0008_0000, 0x0000_0100, 0x4000_0000, 0x0208_0000),
      Of4(i, 0x4008_0100, 0x0008_0000, 0x0200_0100, 0x4008_0100),
      Of4(i, 0x4200_0100, 0x4208_0000, 0x0008_0100, 0x4000_0000))
    else if i < 32 then Row(i,
      Of4(i, 0x0200_0000, 0x4008_0000, 0x4008_0000, 0x0000_0000),
      Of4(i, 0x4000_0100, 0x4208_0100, 0x4208_0100, 0x0200_0100),
      Of4(i, 0x4208_0000, 0x4000_0100, 0x0000_0000, 0x4200_0000),
      Of4(i, 0x0208_0100, 0x0200_0000, 0x4200_0000, 0x0008_0100))
    else if i < 48 then Row(i,
      Of4(i, 0x0008_0000, 0x4200_0100, 0x0000_0100, 0x0200_0000),
      Of4(i, 0x4000_0000, 0x0208_0000, 0x4200_0100, 0x4008_0100),
      Of4(i, 0x0200_0100, 0x4000_0000, 0x4208_0000, 0x0208_0100),
      Of4(i, 0x4008_0100, 0x0000_0100, 0x0200_0000, 0x4208_0000))
    else Row(i,
      Of4(i, 0x4208_0100, 0x0008_0100, 0x4200_0000, 0x4208_0100),
      Of4(i, 0x0208_0000, 0x0000_0000, 0x4008_0000, 0x4200_0000),
      Of4(i, 0x0008_0100, 0x0200_0100, 0x4000_0100, 0x0008_0000),
      Of4(i, 0x0000_0000, 0x4008_0000, 0x0208_0100, 0x4000_0100))
  }

  function Sp6(i: bv6): bv32 {
    if i < 16 then Row(i,
      Of4(i, 0x2000_0010, 0x2040_0000, 0x0000_4000, 0x2040_4010),
      Of4(i, 0x2040_0000, 0x0000_0010, 0x2040_4010, 0x0040_0000),
      Of4(i, 0x2000_4000, 0x0040_4010, 0x0040_0000, 0x2000_0010),
      Of4(i, 0x0040_0010, 0x2000_4000, 0x2000_0000, 0x0000_4010))
    else if i < 32 then Row(i,
      Of4(i, 0x0000_0000, 0x0040_0010, 0x2000_4010, 0x0000_4000),
      Of4(i, 0x0040_4000, 0x2000_4010, 0x0000_0010, 0x2040_0010),
      Of4(i, 0x2040_0010, 0x0000_0000, 0x0040_4010, 0x2040_4000),
      Of4(i, 0x0000_4010, 0x0040_4000, 0x2040_4000, 0x2000_0000))
    else if i < 48 then Row(i,
      Of4(i, 0x2000_4000, 0x0000_0010, 0x2040_0010, 0x0040_4000),
      Of4(i, 0x2040_4010, 0x0040_0000, 0x0000_4010, 0x2000_0010),
      Of4(i, 0x0040_0000, 0x2000_4000, 0x2000_0000, 0x0000_4010),
      Of4(i, 0x2000_0010, 0x2040_4010, 0x0040_4000, 0x2040_0000))
    else Row(i,
      Of4(i, 0x0040_4010, 0x2040_4000, 0x0000_0000, 0x2040_0010),
      Of4(i, 0x0000_0010, 0x0000_4000, 0x2040_0000, 0x0040_4010),
      Of4(i, 0x0000_4000, 0x0040_0010, 0x2000_4010, 0x0000_0000),
      Of4(i, 0x2040_4000, 0x2000_0000, 0x0040_0010, 0x2000_4010))
  }

  function Sp7(i: bv6): bv32 {
    if i < 16 then Row(i,
      Of4(i, 0x0020_0000, 0x0420_0002, 0x0400_0802, 0x0000_0000),
      Of4(i, 0x0000_0800, 0x0400_0802, 0x0020_0802, 0x0420_0800),
      Of4(i, 0x0420_0802, 0x0020_0000, 0x0000_0000, 0x0400_0002),
      Of4(i, 0x0000_0002, 0x0400_0000, 0x0420_0002, 0x0000_0802))
    else if i < 32 then Row(i,
      Of4(i, 0x0400_0800, 0x0020_0802, 0x0020_0002, 0x0400_0800),
      Of4(i, 0x0400_0002, 0x0420_0000, 0x0420_0800, 0x0020_0002),
      Of4(i, 0x0420_0000, 0x0000_0800, 0x0000_0802, 0x0420_0802),
      Of4(i, 0x0020_0800, 0x0000_0002, 0x0400_0000, 0x0020_0800))
    else if i < 48 then Row(i,
      Of4(i, 0x0400_0000, 0x0020_0800, 0x0020_0000, 0x0400_0802),
      Of4(i, 0x0400_0802, 0x0420_0002, 0x0420_0002, 0x0000_0002),
      Of4(i, 0x0020_0002, 0x0400_0000, 0x0400_0800, 0x0020_0000),
      Of4(i, 0x0420_0800, 0x0000_0802, 0x0020_0802, 0x0420_0800))
    else Row(i,
      Of4(i, 0x0000_0802, 0x0400_0002, 0x0420_0802, 0x0420_0000),
      Of4(i, 0x0020_0800, 0x0000_0000, 0x0000_0002, 0x0420_0802),
      Of4(i, 0x0000_0000, 0x0020_0802, 0x0420_0000, 0x0000_0800),
      Of4(i, 0x0400_0002, 0x0400_0800, 0x0000_0800, 0x0020_0002))
  }

  function Sp8(i: bv6): bv32 {
    if i < 16 then Row(i,
      Of4(i, 0x1000_1040, 0x0000_1000, 0x0004_0000, 0x1004_1040),
      Of4(i, 0x1000_0000, 0x1000_1040, 0x0000_0040, 0x1000_0000),
      Of4(i, 0x0004_0040, 0x1004_0000, 0x1004_1040, 0x0004_1000),
      Of4(i, 0x1004_1000, 0x0004_1040, 0x0000_1000, 0x0000_0040))
    else if i < 32 then Row(i,
      Of4(i, 0x1004_0000, 0x1000_0040, 0x1000_1000, 0x0000_1040),
      Of4(i, 0x0004_1000, 0x0004_0040, 0x1004_0040, 0x1004_1000),
      Of4(i, 0x0000_1040, 0x0000_0000, 0x0000_0000, 0x1004_0040),
      Of4(i, 0x1000_0040, 0x1000_1000, 0x0004_1040, 0x0004_0000))
    else if i < 48 then Row(i,
      Of4(i, 0x0004_1040, 0x0004_0000, 0x1004_1000, 0x0000_1000),
      Of4(i, 0x0000_0040, 0x1004_0040, 0x0000_1000, 0x0004_1040),
      Of4(i, 0x1000_1000, 0x0000_0040, 0x1000_0040, 0x1004_0000),
      Of4(i, 0x1004_0040, 0x1000_0000, 0x0004_0000, 0x1000_1040))
    else Row(i,
      Of4(i, 0x0000_0000, 0x1004_1040, 0x0004_0040, 0x1000_0040),
      Of4(i, 0x1004_0000, 0x1000_1000, 0x1000_1040, 0x0000_0000),
      Of4(i, 0x1004_1040, 0x0004_1000, 0x0004_1000, 0x0000_1040),
      Of4(i, 0x0000_1040, 0x0004_0040, 0x1000_0000, 0x1004_1000))
  }

  const CODEC_TABLES := Tables(
    i => Sp1(i), i => Sp2(i), i => Sp3(i), i => Sp4(i),
    i => Sp5(i), i => Sp6(i), i => Sp7(i), i => Sp8(i))
}
