/** The substitution tables as FIPS 46-3 defines them, and that the codec's tables hold them. */
module DesBoxes {
  import opened Des
  import opened DesTables

  /** The four rows of a substitution box; each holds sixteen numbers of four bits, the first one uppermost. */
  datatype Box = Box(row0: bv64, row1: bv64, row2: bv64, row3: bv64)

  const S1 := Box(0xe4d1_2fb8_3a6c_5907, 0x0f74_e2d1_a6cb_9538,
                0x41e8_d62b_fc97_3a50, 0xfc82_4917_5b3e_a06d)
  const S2 := Box(0xf18e_6b34_972d_c05a, 0x3d47_f28e_c01a_69b5,
                0x0e7b_a4d1_58c6_932f, 0xd8a1_3f42_b67c_05e9)
  const S3 := Box(0xa09e_63f5_1dc7_b428, 0xd709_346a_285e_cbf1,
                0xd649_8f30_b12c_5ae7, 0x1ad0_6987_4fe3_b52c)
  const S4 := Box(0x7de3_069a_1285_bc4f, 0xd8b5_6f03_472c_1ae9,
                0xa690_cb7d_f13e_5284, 0x3f06_a1d8_945b_c72e)
  const S5 := Box(0x2c41_7ab6_853f_d0e9, 0xeb2c_47d1_50fa_3986,
                0x421b_ad78_f9c5_630e, 0xb8c7_1e2d_6f09_a453)
  const S6 := Box(0xc1af_9268_0d34_e75b, 0xaf42_7c95_61de_0b38,
                0x9ef5_28c3_704a_1db6, 0x432c_95fa_be17_608d)
  const S7 := Box(0x4b2e_f08d_3c97_5a61, 0xd0b7_491a_e35c_2f86,
                0x14bd_c37e_af68_0592, 0x6bd8_14a7_950f_e23c)
  const S8 := Box(0xd284_6fb1_a93e_50c7, 0x1fd8_a374_c56b_0e92,
                0x7b41_9ce2_06ad_f358, 0x21e7_4a8d_fc90_356b)

  /** The first and last of the six bits choose the row, those between the column. */
  function Entry(b: Box, i: bv6): bv64 {
    var row := if i & 0x20 == 0 then (if i & 1 == 0 then b.row0 else b.row1)
               else if i & 1 == 0 then b.row2 else b.row3;
    var half := if i & 0x10 == 0 then row else row << 32;
    var quarter := if i & 0x08 == 0 then half else half << 16;
    var two := if i & 0x04 == 0 then quarter else quarter << 8;
    (if i & 0x02 == 0 then two else two << 4) >> 60
  }

  /** The four bits of an output put in four places of a word. */
  function Placed(n: bv64, p0: bv64, p1: bv64, p2: bv64, p3: bv64): bv64 {
    (if n & 8 != 0 then p0 else 0) | (if n & 4 != 0 then p1 else 0) | (if n & 2 != 0 then p2 else 0)
    | (if n & 1 != 0 then p3 else 0)
  }

  /** Box 1; the permutation P of the standard puts its outputs in the places 9, 17, 23 and 31. */
  function Box1(i: bv6): bv64 {
    Placed(Entry(S1, i), 0x800000, 0x8000, 0x200, 0x2)
  }

  lemma Box1IsStandard(i: bv6)
    ensures Pick(Sp1, i) == TurnLeft(Box1(i))
  {
    if i < 16 {
    } else if i < 32 {
    } else if i < 48 {
    }
  }

  /** Box 2; the permutation P of the standard puts its outputs in the places 13, 28, 2 and 18. */
  function Box2(i: bv6): bv64 {
    Placed(Entry(S2, i), 0x80000, 0x10, 0x40000000, 0x4000)
  }

  lemma Box2IsStandard(i: bv6)
    ensures Pick(Sp2, i) == TurnLeft(Box2(i))
  {
    if i < 16 {
    } else if i < 32 {
    } else if i < 48 {
    }
  }

  /** Box 3; the permutation P of the standard puts its outputs in the places 24, 16, 30 and 6. */
  function Box3(i: bv6): bv64 {
    Placed(Entry(S3, i), 0x100, 0x10000, 0x4, 0x4000000)
  }

  lemma Box3IsStandard(i: bv6)
    ensures Pick(Sp3, i) == TurnLeft(Box3(i))
  {
    if i < 16 {
    } else if i < 32 {
    } else if i < 48 {
    }
  }

  /** Box 4; the permutation P of the standard puts its outputs in the places 26, 20, 10 and 1. */
  function Box4(i: bv6): bv64 {
    Placed(Entry(S4, i), 0x40, 0x1000, 0x400000, 0x80000000)
  }

  lemma Box4IsStandard(i: bv6)
    ensures Pick(Sp4, i) == TurnLeft(Box4(i))
  {
    if i < 16 {
    } else if i < 32 {
    } else if i < 48 {
    }
  }

  /** Box 5; the permutation P of the standard puts its outputs in the places 8, 14, 25 and 3. */
  function Box5(i: bv6): bv64 {
    Placed(Entry(S5, i), 0x1000000, 0x40000, 0x80, 0x20000000)
  }

  lemma Box5IsStandard(i: bv6)
    ensures Pick(Sp5, i) == TurnLeft(Box5(i))
  {
    if i < 16 {
    } else if i < 32 {
    } else if i < 48 {
    }
  }

  /** Box 6; the permutation P of the standard puts its outputs in the places 4, 29, 11 and 19. */
  function Box6(i: bv6): bv64 {
    Placed(Entry(S6, i), 0x10000000, 0x8, 0x200000, 0x2000)
  }

  lemma Box6IsStandard(i: bv6)
    ensures Pick(Sp6, i) == TurnLeft(Box6(i))
  {
    if i < 16 {
    } else if i < 32 {
    } else if i < 48 {
    }
  }

  /** Box 7; the permutation P of the standard puts its outputs in the places 32, 12, 22 and 7. */
  function Box7(i: bv6): bv64 {
    Placed(Entry(S7, i), 0x1, 0x100000, 0x400, 0x2000000)
  }

  lemma Box7IsStandard(i: bv6)
    ensures Pick(Sp7, i) == TurnLeft(Box7(i))
  {
    if i < 16 {
    } else if i < 32 {
    } else if i < 48 {
    }
  }

  /** Box 8; the permutation P of the standard puts its outputs in the places 5, 27, 15 and 21. */
  function Box8(i: bv6): bv64 {
    Placed(Entry(S8, i), 0x8000000, 0x20, 0x20000, 0x800)
  }

  lemma Box8IsStandard(i: bv6)
    ensures Pick(Sp8, i) == TurnLeft(Box8(i))
  {
    if i < 16 {
    } else if i < 32 {
    } else if i < 48 {
    }
  }
}
