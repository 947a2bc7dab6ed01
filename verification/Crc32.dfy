/** The CRC32c of crc32.h, which sctp.c puts into its common header.

Everything here is on bit vectors: a byte is a `bv8`, the register a `bv32`, and the C
accumulator, an unsigned long, a `bv64`. Facts about concrete bit patterns are lemmas of their
own, one equation each; the arguments over messages hide the bit patterns.
*/
module Crc32 {

  // ----- the table

  /** crc_c, eight entries to a row */
  const CRC_C: seq<seq<bv64>> := [
    [0x0000_0000, 0xF26B_8303, 0xE13B_70F7, 0x1350_F3F4, 0xC79A_971F, 0x35F1_141C, 0x26A1_E7E8, 0xD4CA_64EB],
    [0x8AD9_58CF, 0x78B2_DBCC, 0x6BE2_2838, 0x9989_AB3B, 0x4D43_CFD0, 0xBF28_4CD3, 0xAC78_BF27, 0x5E13_3C24],
    [0x105E_C76F, 0xE235_446C, 0xF165_B798, 0x030E_349B, 0xD7C4_5070, 0x25AF_D373, 0x36FF_2087, 0xC494_A384],
    [0x9A87_9FA0, 0x68EC_1CA3, 0x7BBC_EF57, 0x89D7_6C54, 0x5D1D_08BF, 0xAF76_8BBC, 0xBC26_7848, 0x4E4D_FB4B],
    [0x20BD_8EDE, 0xD2D6_0DDD, 0xC186_FE29, 0x33ED_7D2A, 0xE727_19C1, 0x154C_9AC2, 0x061C_6936, 0xF477_EA35],
    [0xAA64_D611, 0x580F_5512, 0x4B5F_A6E6, 0xB934_25E5, 0x6DFE_410E, 0x9F95_C20D, 0x8CC5_31F9, 0x7EAE_B2FA],
    [0x30E3_49B1, 0xC288_CAB2, 0xD1D8_3946, 0x23B3_BA45, 0xF779_DEAE, 0x0512_5DAD, 0x1642_AE59, 0xE429_2D5A],
    [0xBA3A_117E, 0x4851_927D, 0x5B01_6189, 0xA96A_E28A, 0x7DA0_8661, 0x8FCB_0562, 0x9C9B_F696, 0x6EF0_7595],
    [0x417B_1DBC, 0xB310_9EBF, 0xA040_6D4B, 0x522B_EE48, 0x86E1_8AA3, 0x748A_09A0, 0x67DA_FA54, 0x95B1_7957],
    [0xCBA2_4573, 0x39C9_C670, 0x2A99_3584, 0xD8F2_B687, 0x0C38_D26C, 0xFE53_516F, 0xED03_A29B, 0x1F68_2198],
    [0x5125_DAD3, 0xA34E_59D0, 0xB01E_AA24, 0x4275_2927, 0x96BF_4DCC, 0x64D4_CECF, 0x7784_3D3B, 0x85EF_BE38],
    [0xDBFC_821C, 0x2997_011F, 0x3AC7_F2EB, 0xC8AC_71E8, 0x1C66_1503, 0xEE0D_9600, 0xFD5D_65F4, 0x0F36_E6F7],
    [0x61C6_9362, 0x93AD_1061, 0x80FD_E395, 0x7296_6096, 0xA65C_047D, 0x5437_877E, 0x4767_748A, 0xB50C_F789],
    [0xEB1F_CBAD, 0x1974_48AE, 0x0A24_BB5A, 0xF84F_3859, 0x2C85_5CB2, 0xDEEE_DFB1, 0xCDBE_2C45, 0x3FD5_AF46],
    [0x7198_540D, 0x83F3_D70E, 0x90A3_24FA, 0x62C8_A7F9, 0xB602_C312, 0x4469_4011, 0x5739_B3E5, 0xA552_30E6],
    [0xFB41_0CC2, 0x092A_8FC1, 0x1A7A_7C35, 0xE811_FF36, 0x3CDB_9BDD, 0xCEB0_18DE, 0xDDE0_EB2A, 0x2F8B_6829],
    [0x82F6_3B78, 0x709D_B87B, 0x63CD_4B8F, 0x91A6_C88C, 0x456C_AC67, 0xB707_2F64, 0xA457_DC90, 0x563C_5F93],
    [0x082F_63B7, 0xFA44_E0B4, 0xE914_1340, 0x1B7F_9043, 0xCFB5_F4A8, 0x3DDE_77AB, 0x2E8E_845F, 0xDCE5_075C],
    [0x92A8_FC17, 0x60C3_7F14, 0x7393_8CE0, 0x81F8_0FE3, 0x5532_6B08, 0xA759_E80B, 0xB409_1BFF, 0x4662_98FC],
    [0x1871_A4D8, 0xEA1A_27DB, 0xF94A_D42F, 0x0B21_572C, 0xDFEB_33C7, 0x2D80_B0C4, 0x3ED0_4330, 0xCCBB_C033],
    [0xA24B_B5A6, 0x5020_36A5, 0x4370_C551, 0xB11B_4652, 0x65D1_22B9, 0x97BA_A1BA, 0x84EA_524E, 0x7681_D14D],
    [0x2892_ED69, 0xDAF9_6E6A, 0xC9A9_9D9E, 0x3BC2_1E9D, 0xEF08_7A76, 0x1D63_F975, 0x0E33_0A81, 0xFC58_8982],
    [0xB215_72C9, 0x407E_F1CA, 0x532E_023E, 0xA145_813D, 0x758F_E5D6, 0x87E4_66D5, 0x94B4_9521, 0x66DF_1622],
    [0x38CC_2A06, 0xCAA7_A905, 0xD9F7_5AF1, 0x2B9C_D9F2, 0xFF56_BD19, 0x0D3D_3E1A, 0x1E6D_CDEE, 0xEC06_4EED],
    [0xC38D_26C4, 0x31E6_A5C7, 0x22B6_5633, 0xD0DD_D530, 0x0417_B1DB, 0xF67C_32D8, 0xE52C_C12C, 0x1747_422F],
    [0x4954_7E0B, 0xBB3F_FD08, 0xA86F_0EFC, 0x5A04_8DFF, 0x8ECE_E914, 0x7CA5_6A17, 0x6FF5_99E3, 0x9D9E_1AE0],
    [0xD3D3_E1AB, 0x21B8_62A8, 0x32E8_915C, 0xC083_125F, 0x1449_76B4, 0xE622_F5B7, 0xF572_0643, 0x0719_8540],
    [0x590A_B964, 0xAB61_3A67, 0xB831_C993, 0x4A5A_4A90, 0x9E90_2E7B, 0x6CFB_AD78, 0x7FAB_5E8C, 0x8DC0_DD8F],
    [0xE330_A81A, 0x115B_2B19, 0x020B_D8ED, 0xF060_5BEE, 0x24AA_3F05, 0xD6C1_BC06, 0xC591_4FF2, 0x37FA_CCF1],
    [0x69E9_F0D5, 0x9B82_73D6, 0x88D2_8022, 0x7AB9_0321, 0xAE73_67CA, 0x5C18_E4C9, 0x4F48_173D, 0xBD23_943E],
    [0xF36E_6F75, 0x0105_EC76, 0x1255_1F82, 0xE03E_9C81, 0x34F4_F86A, 0xC69F_7B69, 0xD5CF_889D, 0x27A4_0B9E],
    [0x79B7_37BA, 0x8BDC_B4B9, 0x988C_474D, 0x6AE7_C44E, 0xBE2D_A0A5, 0x4C46_23A6, 0x5F16_D052, 0xAD7D_5351]
  ]

  lemma TableShape(i: bv8)
    ensures |CRC_C| == 32
    ensures |CRC_C[(i >> 3) as int]| == 8
  {
  }

  /** crc_c[i] */
  function TableEntry(i: bv8): bv64
  {
    TableShape(i);
    CRC_C[(i >> 3) as int][(i & 7) as int]
  }

  // ----- the definition: division of the message by the generator polynomial

  /** The generator of RFC 4960, Appendix B, without its leading term. */
  const GENERATOR: bv32 := 0x1EDC_6F41

  const INITIAL: bv32 := 0xFFFF_FFFF

  /** Addition of polynomials over the two-element field. */
  function Plus(x: bv32, y: bv32): bv32
  {
    x ^ y
  }

  function Twice(x: bv32): bv32
  {
    x << 1
  }

  function Half(x: bv32): bv32
  {
    x >> 1
  }

  /** One step of long division: the next message bit enters at the top. */
  function Divide(n: bv32, bit: bool): bv32
  {
    if (n & 0x8000_0000 != 0) != bit then Plus(Twice(n), GENERATOR) else Twice(n)
  }

  /** Division by the bits of b, the least significant one first. */
  function DivideBits(n: bv32, b: bv32, bits: nat): bv32
    decreases bits
  {
    if bits == 0 then n else DivideBits(Divide(n, b & 1 == 1), b >> 1, bits - 1)
  }

  /** The remainder register after the message m, starting from n. */
  function Remainder(n: bv32, m: seq<bv8>): bv32
    decreases |m|
  {
    if |m| == 0 then n else Remainder(DivideBits(n, OfByte(m[0]), 8), m[1..])
  }

  /** End-for-end reversal of 32 bits. */
  function Reverse(x: bv32): bv32
  {
    var a := ((x >> 1) & 0x5555_5555) | ((x & 0x5555_5555) << 1);
    var b := ((a >> 2) & 0x3333_3333) | ((a & 0x3333_3333) << 2);
    var c := ((b >> 4) & 0x0F0F_0F0F) | ((b & 0x0F0F_0F0F) << 4);
    var d := ((c >> 8) & 0x00FF_00FF) | ((c & 0x00FF_00FF) << 8);
    (d >> 16) | (d << 16)
  }

  // ----- the reflected register

  const POLY: bv32 := 0x82F6_3B78

  /** One step of the reflected shift register. */
  function Shift(x: bv32): bv32
  {
    if x & 1 == 1 then Plus(Half(x), POLY) else Half(x)
  }

  function Shifts(x: bv32, n: nat): bv32
    decreases n
  {
    if n == 0 then x else Shifts(Shift(x), n - 1)
  }

  /** The register after one more byte. */
  function Step(s: bv32, b: bv8): bv32
  {
    Shifts(Plus(s, OfByte(b)), 8)
  }

  /** The register after the message m, starting from s. */
  function Run(s: bv32, m: seq<bv8>): bv32
    decreases |m|
  {
    if |m| == 0 then s else Run(Step(s, m[0]), m[1..])
  }

  function Complement(x: bv32): bv32
  {
    !x
  }

  /** The value crc32 returns. */
  function Crc(m: seq<bv8>): bv32
  {
    Complement(Run(INITIAL, m))
  }

  // ----- polynomial addition

  lemma CommutesBits(x: bv32, y: bv32)
    ensures x ^ y == y ^ x
  {
  }

  lemma AssociatesBits(x: bv32, y: bv32, z: bv32)
    ensures (x ^ y) ^ z == x ^ (y ^ z)
  {
  }

  lemma CancelsBits(x: bv32, y: bv32)
    ensures (x ^ y) ^ y == x
  {
  }

  lemma ZeroBits(x: bv32)
    ensures x ^ 0 == x
  {
  }

  lemma PlusCommutes(x: bv32, y: bv32)
    ensures Plus(x, y) == Plus(y, x)
  {
    CommutesBits(x, y);
  }

  lemma PlusAssociates(x: bv32, y: bv32, z: bv32)
    ensures Plus(Plus(x, y), z) == Plus(x, Plus(y, z))
  {
    AssociatesBits(x, y, z);
  }

  lemma PlusCancels(x: bv32, y: bv32)
    ensures Plus(Plus(x, y), y) == x
  {
    CancelsBits(x, y);
  }

  lemma PlusZero(x: bv32)
    ensures Plus(x, 0) == x
  {
    ZeroBits(x);
  }

  // ----- the shift register is linear

  lemma LowBit(x: bv32)
    ensures x & 1 == 1 || x & 1 == 0
  {
  }

  lemma BothOdd(x: bv32, y: bv32, p: bv32)
    requires x & 1 == 1 && y & 1 == 1
    ensures (x ^ y) & 1 == 0 && (x ^ y) >> 1 == ((x >> 1) ^ p) ^ ((y >> 1) ^ p)
  {
  }

  lemma OneOdd(x: bv32, y: bv32, p: bv32)
    requires x & 1 == 1 && y & 1 == 0
    ensures (x ^ y) & 1 == 1 && ((x ^ y) >> 1) ^ p == ((x >> 1) ^ p) ^ (y >> 1)
  {
  }

  lemma BothEven(x: bv32, y: bv32)
    requires x & 1 == 0 && y & 1 == 0
    ensures (x ^ y) & 1 == 0 && (x ^ y) >> 1 == (x >> 1) ^ (y >> 1)
  {
  }

  lemma ShiftOddOdd(x: bv32, y: bv32)
    requires x & 1 == 1 && y & 1 == 1
    ensures Shift(Plus(x, y)) == Plus(Shift(x), Shift(y))
  {
    BothOdd(x, y, POLY);
  }

  lemma ShiftOddEven(x: bv32, y: bv32)
    requires x & 1 == 1 && y & 1 == 0
    ensures Shift(Plus(x, y)) == Plus(Shift(x), Shift(y))
  {
    OneOdd(x, y, POLY);
  }

  lemma ShiftEvenEven(x: bv32, y: bv32)
    requires x & 1 == 0 && y & 1 == 0
    ensures Shift(Plus(x, y)) == Plus(Shift(x), Shift(y))
  {
    BothEven(x, y);
  }

  lemma ShiftIsLinear(x: bv32, y: bv32)
    ensures Shift(Plus(x, y)) == Plus(Shift(x), Shift(y))
  {
    hide Plus, Shift;
    LowBit(x);
    LowBit(y);
    PlusCommutes(x, y);
    PlusCommutes(Shift(x), Shift(y));
    if x & 1 == 1 {
      if y & 1 == 1 {
        ShiftOddOdd(x, y);
      } else {
        ShiftOddEven(x, y);
      }
    } else {
      if y & 1 == 1 {
        ShiftOddEven(y, x);
      } else {
        ShiftEvenEven(x, y);
      }
    }
  }

  lemma {:induction false} ShiftsIsLinear(x: bv32, y: bv32, n: nat)
    ensures Shifts(Plus(x, y), n) == Plus(Shifts(x, n), Shifts(y, n))
    decreases n
  {
    hide Plus, Shift;
    if n > 0 {
      ShiftIsLinear(x, y);
      ShiftsIsLinear(Shift(x), Shift(y), n - 1);
    }
  }

  lemma {:induction false} ShiftsAdd(x: bv32, n: nat, m: nat)
    ensures Shifts(x, n + m) == Shifts(Shifts(x, n), m)
    decreases n
  {
    hide Shift;
    if n > 0 {
      ShiftsAdd(Shift(x), n - 1, m);
    }
  }

  // ----- the table is eight register steps

  function Wide(x: bv32): bv64
  {
    x as bv64
  }

  function OfByte(b: bv8): bv32
  {
    b as bv32
  }

  function Shift8(x: bv32): bv32
  {
    Shift(Shift(Shift(Shift(Shift(Shift(Shift(Shift(x))))))))
  }

  lemma EightShifts(x: bv32)
    ensures Shifts(x, 8) == Shift8(x)
  {
    hide Shift;
  }

  lemma TableRows(i: bv8)
    ensures TableEntry(i) == Wide(Shift8(OfByte(i)))
  {
  }

  /** All 256 entries. */
  lemma TableIsEightShifts(i: bv8)
    ensures TableEntry(i) == Wide(Shifts(OfByte(i), 8))
  {
    hide TableEntry, Shift8, Shifts, Wide, OfByte;
    TableRows(i);
    EightShifts(OfByte(i));
  }

  lemma WidenBits(x: bv32, y: bv32)
    ensures (x ^ y) as bv64 == (x as bv64) ^ (y as bv64)
  {
  }

  function WidePlus(x: bv64, y: bv64): bv64
  {
    x ^ y
  }

  lemma WideOfPlus(x: bv32, y: bv32)
    ensures Wide(Plus(x, y)) == WidePlus(Wide(x), Wide(y))
  {
    WidenBits(x, y);
  }

  lemma WidenByteBits(i: bv8, j: bv8)
    ensures (i ^ j) as bv32 == (i as bv32) ^ (j as bv32)
  {
  }

  lemma OfBytePlus(i: bv8, j: bv8)
    ensures OfByte(i ^ j) == Plus(OfByte(i), OfByte(j))
  {
    WidenByteBits(i, j);
  }

  /** The table is linear over exclusive or. */
  lemma TableIsLinear(i: bv8, j: bv8)
    ensures TableEntry(i ^ j) == WidePlus(TableEntry(i), TableEntry(j))
  {
    hide TableEntry, Shifts, Plus, Wide, OfByte, WidePlus;
    TableIsEightShifts(i);
    TableIsEightShifts(j);
    TableIsEightShifts(i ^ j);
    OfBytePlus(i, j);
    ShiftsIsLinear(OfByte(i), OfByte(j), 8);
    WideOfPlus(Shifts(OfByte(i), 8), Shifts(OfByte(j), 8));
  }

  function Up(p: bv32): bv32
  {
    p << 8
  }

  function Down(p: bv32): bv32
  {
    p >> 8
  }

  function High(s: bv32): bv32
  {
    s & 0xFFFF_FF00
  }

  /** The index the loop computes from the accumulator and the next byte. */
  function Index(s: bv32, b: bv8): bv8
  {
    (s & 0xFF) as bv8 ^ b
  }

  lemma ShiftsOfHigh(y: bv32)
    requires y & 0xFF == 0
    ensures Shifts(y, 8) == y >> 8
  {
  }

  lemma HighMovesDown(s: bv32)
    ensures Shifts(High(s), 8) == Down(s)
  {
    HighBits(s);
    HighShifted(s);
    ShiftsOfHigh(High(s));
  }

  lemma HighBits(s: bv32)
    ensures (s & 0xFFFF_FF00) & 0xFF == 0
  {
  }

  lemma HighShifted(s: bv32)
    ensures (s & 0xFFFF_FF00) >> 8 == s >> 8
  {
  }

  lemma SplitBits(s: bv32, b: bv8)
    ensures s ^ (b as bv32) == (((s & 0xFF) as bv8 ^ b) as bv32) ^ (s & 0xFFFF_FF00)
  {
  }

  lemma SplitByte(s: bv32, b: bv8)
    ensures Plus(s, OfByte(b)) == Plus(OfByte(Index(s, b)), High(s))
  {
    SplitBits(s, b);
  }

  lemma NarrowShift(s: bv32)
    ensures (s >> 8) as bv64 == (s as bv64) >> 8
  {
  }

  lemma LoopIndexBits(s: bv32, b: bv8)
    ensures (((s as bv64) ^ (b as bv64)) & 0xFF) as bv8 == (s & 0xFF) as bv8 ^ b
  {
  }

  function DownWide(x: bv64): bv64
  {
    x >> 8
  }

  /** The index of the table entry used for b. */
  function LowIndex(acc: bv64, b: bv8): bv8
  {
    ((acc ^ (b as bv64)) & 0xFF) as bv8
  }

  /** The loop body on the 64-bit accumulator. */
  function Round(acc: bv64, b: bv8): bv64
  {
    WidePlus(DownWide(acc), TableEntry(LowIndex(acc, b)))
  }

  lemma WideShift(s: bv32)
    ensures Wide(s >> 8) == Wide(s) >> 8
  {
    NarrowShift(s);
  }

  lemma WideDown(s: bv32)
    ensures DownWide(Wide(s)) == Wide(Down(s))
  {
    hide Wide;
    WideShift(s);
  }

  lemma LoopIndex(s: bv32, b: bv8)
    ensures LowIndex(Wide(s), b) == Index(s, b)
  {
    LoopIndexBits(s, b);
  }

  lemma RoundParts(s: bv32, b: bv8)
    ensures Round(Wide(s), b) == WidePlus(Wide(Down(s)), TableEntry(Index(s, b)))
  {
    hide TableEntry, Wide, Index, Down, DownWide, WidePlus, LowIndex;
    WideDown(s);
    LoopIndex(s, b);
  }

  /** One round of the table loop is one step of the register; in particular the upper half of
  the 64-bit accumulator stays zero. */
  lemma RoundIsStep(s: bv32, b: bv8)
    ensures Round(Wide(s), b) == Wide(Step(s, b))
  {
    hide TableEntry, Shifts, Plus, Wide, WidePlus, OfByte, Index, High, Round, Down;
    var i := Index(s, b);
    RoundParts(s, b);
    TableIsEightShifts(i);
    SplitByte(s, b);
    ShiftsIsLinear(OfByte(i), High(s), 8);
    HighMovesDown(s);
    PlusCommutes(Shifts(OfByte(i), 8), Down(s));
    WideOfPlus(Down(s), Shifts(OfByte(i), 8));
  }

  // ----- the register is the division, reflected

  lemma ReversedTwiceBits(n: bv32)
    ensures Reverse(n << 1) == Reverse(n) >> 1
  {
  }

  lemma ReversedTwice(n: bv32)
    ensures Reverse(Twice(n)) == Half(Reverse(n))
  {
    hide Reverse;
    ReversedTwiceBits(n);
  }

  lemma ReversedTop(n: bv32)
    ensures (n & 0x8000_0000 != 0) == (Reverse(n) & 1 == 1)
  {
  }

  lemma ReversedGeneratorBits(n: bv32)
    ensures Reverse(n ^ GENERATOR) == Reverse(n) ^ POLY
  {
  }

  lemma ReversedGenerator(n: bv32)
    ensures Reverse(Plus(n, GENERATOR)) == Plus(Reverse(n), POLY)
  {
    hide Reverse;
    ReversedGeneratorBits(n);
  }

  function BitOf(bit: bool): bv32
  {
    if bit then 1 else 0
  }

  lemma FlipShifted(r: bv32)
    ensures (r ^ 1) >> 1 == r >> 1
  {
  }

  lemma FlipLowBit(r: bv32)
    ensures ((r ^ 1) & 1 == 1) != (r & 1 == 1)
  {
  }

  lemma HalfOfFlip(r: bv32)
    ensures Half(Plus(r, 1)) == Half(r)
  {
    FlipShifted(r);
  }

  lemma OddOfFlip(r: bv32)
    ensures (Plus(r, 1) & 1 == 1) != (r & 1 == 1)
  {
    FlipLowBit(r);
  }

  /** A step after a message bit has been added: the polynomial is subtracted exactly when the
  register's low bit and the message bit differ. */
  lemma ShiftWithBit(r: bv32, bit: bool)
    ensures Shift(Plus(r, BitOf(bit))) == if (r & 1 == 1) != bit then Plus(Half(r), POLY) else Half(r)
  {
    hide Plus, Half;
    if bit {
      HalfOfFlip(r);
      OddOfFlip(r);
    } else {
      PlusZero(r);
    }
  }

  lemma ReflectedDivide(n: bv32, bit: bool)
    ensures Reverse(Divide(n, bit)) == Shift(Plus(Reverse(n), BitOf(bit)))
  {
    hide Reverse, Plus, BitOf, Shift, Twice, Half;
    ReversedTop(n);
    ShiftWithBit(Reverse(n), bit);
    ReversedTwice(n);
    ReversedGenerator(Twice(n));
  }

  lemma EvenPart(x: bv32)
    ensures ((x >> 1) << 1) & 1 == 0
  {
  }

  lemma EvenPartShifted(x: bv32)
    ensures ((x >> 1) << 1) >> 1 == x >> 1
  {
  }

  lemma OddPart(x: bv32)
    requires x & 1 == 1
    ensures x == 1 ^ ((x >> 1) << 1)
  {
  }

  lemma NoOddPart(x: bv32)
    requires x & 1 == 0
    ensures x == 0 ^ ((x >> 1) << 1)
  {
  }

  lemma SplitLowBit(x: bv32)
    ensures x == Plus(BitOf(x & 1 == 1), (x >> 1) << 1)
  {
    LowBit(x);
    if x & 1 == 1 {
      OddPart(x);
    } else {
      NoOddPart(x);
    }
  }

  lemma ShiftEvenPart(x: bv32)
    ensures Shift((x >> 1) << 1) == x >> 1
  {
    EvenPart(x);
    EvenPartShifted(x);
  }

  /** The lowest bit of x enters now; the others wait for their turn in the register. */
  lemma OneBit(n: bv32, x: bv32)
    ensures Shift(Plus(Reverse(n), x)) == Plus(Reverse(Divide(n, x & 1 == 1)), x >> 1)
  {
    hide Reverse, Shift, Divide, Plus, BitOf;
    var low, rest := BitOf(x & 1 == 1), (x >> 1) << 1;
    SplitLowBit(x);
    ShiftEvenPart(x);
    PlusAssociates(Reverse(n), low, rest);
    ShiftIsLinear(Plus(Reverse(n), low), rest);
    ReflectedDivide(n, x & 1 == 1);
  }

  function Drop(x: bv32, bits: nat): bv32
    decreases bits
  {
    if bits == 0 then x else Drop(x >> 1, bits - 1)
  }

  lemma {:induction false} ReflectedBits(n: bv32, x: bv32, bits: nat)
    ensures Shifts(Plus(Reverse(n), x), bits) == Plus(Reverse(DivideBits(n, x, bits)), Drop(x, bits))
    decreases bits
  {
    hide Reverse, Shift, Divide, Plus;
    if bits > 0 {
      OneBit(n, x);
      ReflectedBits(Divide(n, x & 1 == 1), x >> 1, bits - 1);
    }
  }

  lemma ByteDropsOut(b: bv8)
    ensures Drop(OfByte(b), 8) == 0
  {
  }

  lemma {:induction false} RunIsRemainder(n: bv32, m: seq<bv8>)
    ensures Run(Reverse(n), m) == Reverse(Remainder(n, m))
    decreases |m|
  {
    hide Reverse, Plus, Shifts, DivideBits, Drop, OfByte;
    if |m| > 0 {
      var r := DivideBits(n, OfByte(m[0]), 8);
      ReflectedBits(n, OfByte(m[0]), 8);
      ByteDropsOut(m[0]);
      PlusZero(Reverse(r));
      RunIsRemainder(r, m[1..]);
    }
  }

  lemma ReversedInitial()
    ensures Reverse(INITIAL) == INITIAL
  {
  }

  /** For every message, the table-driven value is the bit-reversed and complemented remainder
  of the bit-by-bit division (RFC 4960, Appendix B). */
  lemma CrcIsRemainder(m: seq<bv8>)
    ensures Crc(m) == Complement(Reverse(Remainder(INITIAL, m)))
  {
    hide Reverse, Complement;
    ReversedInitial();
    RunIsRemainder(INITIAL, m);
  }

  // ----- what the CRC detects

  /** The register run backwards. */
  function Unshift(y: bv32): bv32
  {
    if y & 0x8000_0000 != 0 then ((y ^ POLY) << 1) | 1 else y << 1
  }

  lemma UnshiftsShift(x: bv32)
    ensures Unshift(Shift(x)) == x
  {
  }

  lemma TopBack(y: bv32)
    requires y & 0x8000_0000 != 0
    ensures ((((y ^ POLY) << 1) | 1) >> 1) == y ^ POLY
  {
  }

  lemma TopOdd(y: bv32)
    ensures (((y ^ POLY) << 1) | 1) & 1 == 1
  {
  }

  lemma NoTopBack(y: bv32)
    requires y & 0x8000_0000 == 0
    ensures (y << 1) >> 1 == y
  {
  }

  lemma NoTopEven(y: bv32)
    ensures (y << 1) & 1 == 0
  {
  }

  lemma ShiftsUnshift(y: bv32)
    ensures Shift(Unshift(y)) == y
  {
    if y & 0x8000_0000 != 0 {
      TopBack(y);
      TopOdd(y);
      CancelsBits(y, POLY);
    } else {
      NoTopBack(y);
      NoTopEven(y);
    }
  }

  /** The step is a bijection on the 32-bit states: no two states ever merge. */
  lemma {:induction false} ShiftsIsInjective(x: bv32, y: bv32, n: nat)
    ensures Shifts(x, n) == Shifts(y, n) <==> x == y
    decreases n
  {
    hide Shift, Unshift;
    if n > 0 {
      ShiftsIsInjective(Shift(x), Shift(y), n - 1);
      UnshiftsShift(x);
      UnshiftsShift(y);
    }
  }

  /** Equal bytes never merge two different register states. */
  lemma {:induction false} RunIsInjective(s: bv32, t: bv32, m: seq<bv8>)
    ensures Run(s, m) == Run(t, m) <==> s == t
    decreases |m|
  {
    hide Plus, Shifts, OfByte;
    if |m| > 0 {
      var b := OfByte(m[0]);
      RunIsInjective(Step(s, m[0]), Step(t, m[0]), m[1..]);
      ShiftsIsInjective(Plus(s, b), Plus(t, b), 8);
      PlusCancels(s, b);
      PlusCancels(t, b);
    }
  }

  lemma {:induction false} RunAppends(s: bv32, m: seq<bv8>, m': seq<bv8>)
    ensures Run(s, m + m') == Run(Run(s, m), m')
    decreases |m|
  {
    hide Step;
    if |m| == 0 {
      assert m + m' == m';
    } else {
      assert (m + m')[1..] == m[1..] + m';
      RunAppends(Step(s, m[0]), m[1..], m');
    }
  }

  /** Up to four bytes as one little-endian number. */
  function Pack(w: seq<bv8>): bv32
  {
    if |w| == 0 then 0 else Plus(OfByte(w[0]), Up(Pack(w[1..])))
  }

  lemma FitsOne(b: bv8)
    ensures Plus(OfByte(b), Up(0)) <= 0xFF
  {
  }

  lemma FitsTwo(b: bv8, p: bv32)
    requires p <= 0xFF
    ensures Plus(OfByte(b), Up(p)) <= 0xFFFF
  {
  }

  lemma FitsThree(b: bv8, p: bv32)
    requires p <= 0xFFFF
    ensures Plus(OfByte(b), Up(p)) <= 0xFF_FFFF
  {
  }

  lemma Fits(b: bv8, p: bv32)
    ensures p == 0 ==> Plus(OfByte(b), Up(p)) <= 0xFF
    ensures p <= 0xFF ==> Plus(OfByte(b), Up(p)) <= 0xFFFF
    ensures p <= 0xFFFF ==> Plus(OfByte(b), Up(p)) <= 0xFF_FFFF
  {
    hide Plus, OfByte, Up;
    if p == 0 {
      FitsOne(b);
    }
    if p <= 0xFF {
      FitsTwo(b, p);
    }
    if p <= 0xFFFF {
      FitsThree(b, p);
    }
  }

  predicate Below(p: bv32, n: nat)
  {
    if n == 0 then p == 0 else if n == 1 then p <= 0xFF else if n == 2 then p <= 0xFFFF else p <= 0xFF_FFFF
  }

  lemma {:induction false} PackFits(w: seq<bv8>)
    requires |w| <= 3
    ensures Below(Pack(w), |w|)
  {
    hide Plus, OfByte, Up;
    if |w| > 0 {
      PackFits(w[1..]);
      Fits(w[0], Pack(w[1..]));
    }
  }

  lemma BelowThree(p: bv32, n: nat)
    requires Below(p, n)
    ensures p <= 0xFF_FFFF
  {
  }

  predicate Narrow(p: bv32)
  {
    p <= 0xFF_FFFF
  }

  lemma PackIsNarrow(w: seq<bv8>)
    requires |w| <= 3
    ensures Narrow(Pack(w))
  {
    hide Below, Pack;
    PackFits(w);
    BelowThree(Pack(w), |w|);
  }

  lemma LowByteBits(b: bv8, p: bv32)
    ensures (((b as bv32) ^ (p << 8)) & 0xFF) as bv8 == b
  {
  }

  lemma RestBits(b: bv8, p: bv32)
    requires p <= 0xFF_FFFF
    ensures ((b as bv32) ^ (p << 8)) >> 8 == p
  {
  }

  function Low(x: bv32): bv8
  {
    (x & 0xFF) as bv8
  }

  lemma LowByte(b: bv8, p: bv32)
    ensures Low(Plus(OfByte(b), Up(p))) == b
  {
    LowByteBits(b, p);
  }

  lemma Rest(b: bv8, p: bv32)
    requires Narrow(p)
    ensures Down(Plus(OfByte(b), Up(p))) == p
  {
    RestBits(b, p);
  }

  lemma UpBits(p: bv32)
    ensures (p << 8) & 0xFF == 0
  {
  }

  lemma UpDownBits(p: bv32)
    requires p <= 0xFF_FFFF
    ensures (p << 8) >> 8 == p
  {
  }

  lemma UpComesDown(p: bv32)
    requires Narrow(p)
    ensures Shifts(Up(p), 8) == p
  {
    UpBits(p);
    UpDownBits(p);
    ShiftsOfHigh(p << 8);
  }

  lemma {:induction false} PackIsInjective(w: seq<bv8>, v: seq<bv8>)
    requires |w| == |v| <= 4
    ensures Pack(w) == Pack(v) <==> w == v
  {
    hide Plus, OfByte, Up, Down, Low, Narrow;
    if |w| > 0 && Pack(w) == Pack(v) {
      PackIsNarrow(w[1..]);
      PackIsNarrow(v[1..]);
      LowByte(w[0], Pack(w[1..]));
      LowByte(v[0], Pack(v[1..]));
      Rest(w[0], Pack(w[1..]));
      Rest(v[0], Pack(v[1..]));
      PackIsInjective(w[1..], v[1..]);
      assert w == [w[0]] + w[1..] && v == [v[0]] + v[1..];
    }
  }

  lemma NoShifts(x: bv32)
    ensures Shifts(x, 0) == x
  {
  }

  /** A window of up to four bytes enters the register as one number. */
  lemma {:induction false} RunIsPacked(s: bv32, w: seq<bv8>)
    requires |w| <= 4
    ensures Run(s, w) == Shifts(Plus(s, Pack(w)), 8 * |w|)
    decreases |w|
  {
    hide Plus, Shifts, OfByte, Up, Narrow;
    if |w| == 0 {
      PlusZero(s);
      NoShifts(Plus(s, Pack(w)));
    } else {
      var b, p := OfByte(w[0]), Pack(w[1..]);
      PackIsNarrow(w[1..]);
      UpComesDown(p);
      RunIsPacked(Step(s, w[0]), w[1..]);
      PlusAssociates(s, b, Up(p));
      ShiftsIsLinear(Plus(s, b), Up(p), 8);
      ShiftsAdd(Plus(s, Pack(w)), 8, 8 * |w[1..]|);
    }
  }

  lemma ComplementBits(x: bv32)
    ensures !!x == x
  {
  }

  lemma ComplementIsInjective(x: bv32, y: bv32)
    ensures Complement(x) == Complement(y) <==> x == y
  {
    ComplementBits(x);
    ComplementBits(y);
  }

  /** Burst detection: of two messages that differ at most inside one window of up to four
  consecutive bytes, the CRCs are equal exactly when the messages are. */
  lemma BurstIsDetected(before: seq<bv8>, w: seq<bv8>, v: seq<bv8>, after: seq<bv8>)
    requires |w| == |v| <= 4
    ensures Crc(before + w + after) == Crc(before + v + after) <==> w == v
  {
    hide Run, Plus, Shifts, Pack, Complement;
    var s := Run(INITIAL, before);
    RunAppends(INITIAL, before + w, after);
    RunAppends(INITIAL, before + v, after);
    RunAppends(INITIAL, before, w);
    RunAppends(INITIAL, before, v);
    ComplementIsInjective(Run(INITIAL, before + w + after), Run(INITIAL, before + v + after));
    RunIsInjective(Run(s, w), Run(s, v), after);
    RunIsPacked(s, w);
    RunIsPacked(s, v);
    ShiftsIsInjective(Plus(s, Pack(w)), Plus(s, Pack(v)), 8 * |w|);
    PlusCommutes(s, Pack(w));
    PlusCommutes(s, Pack(v));
    PlusCancels(Pack(w), s);
    PlusCancels(Pack(v), s);
    PackIsInjective(w, v);
  }

  /** The low n bytes of x as the little-endian host stores them. */
  function Unpack(x: bv32, n: nat): (s: seq<bv8>)
    ensures |s| == n
    decreases n
  {
    if n == 0 then [] else [Low(x)] + Unpack(Down(x), n - 1)
  }

  lemma TakeByteBits(x: bv32)
    ensures (((x & 0xFF) as bv8) as bv32) ^ ((x >> 8) << 8) == x
  {
  }

  lemma TakeByte(x: bv32)
    ensures Plus(OfByte(Low(x)), Up(Down(x))) == x
  {
    TakeByteBits(x);
  }

  function Downs(x: bv32, n: nat): bv32
    decreases n
  {
    if n == 0 then x else Downs(Down(x), n - 1)
  }

  lemma FourDowns(x: bv32)
    ensures Downs(x, 4) == 0
  {
  }

  lemma {:induction false} PackUnpacks(x: bv32, n: nat)
    requires Downs(x, n) == 0
    ensures Pack(Unpack(x, n)) == x
    decreases n
  {
    hide Plus, OfByte, Up, Down, Low;
    if n > 0 {
      PackUnpacks(Down(x), n - 1);
      TakeByte(x);
      assert Unpack(x, n)[1..] == Unpack(Down(x), n - 1);
    }
  }

  const RESIDUE: bv32 := 0xB798_B438

  lemma ComplementSum(s: bv32)
    ensures Plus(s, Complement(s)) == INITIAL
  {
    ComplementSumBits(s);
  }

  lemma ComplementSumBits(s: bv32)
    ensures s ^ !s == 0xFFFF_FFFF
  {
  }

  lemma ResidueIsFixed()
    ensures Shifts(INITIAL, 32) == RESIDUE
  {
    hide Shift, Shifts;
    ResidueBytes();
    ShiftsAdd(INITIAL, 8, 24);
    ShiftsAdd(0xAD82_ACAE, 8, 16);
    ShiftsAdd(0x0E9E_882D, 8, 8);
  }

  lemma ResidueBytes()
    ensures Shifts(INITIAL, 8) == 0xAD82_ACAE
    ensures Shifts(0xAD82_ACAE, 8) == 0x0E9E_882D
    ensures Shifts(0x0E9E_882D, 8) == 0x9F9B_5C85
    ensures Shifts(0x9F9B_5C85, 8) == RESIDUE
  {
  }

  /** A zero byte leads on from there. */
  lemma ResidueStep()
    ensures Step(RESIDUE, 0) != RESIDUE
  {
  }

  /** A receiver who runs the loop over a message and its stored CRC always ends in one and the
  same state. */
  lemma AppendedCrcLeavesResidue(m: seq<bv8>)
    ensures Run(INITIAL, m + Unpack(Crc(m), 4)) == RESIDUE
  {
    hide Run, Plus, Shifts, Pack, Unpack, Complement, Downs;
    var s := Run(INITIAL, m);
    var c := Unpack(Crc(m), 4);
    RunAppends(INITIAL, m, c);
    RunIsPacked(s, c);
    FourDowns(Crc(m));
    PackUnpacks(Crc(m), 4);
    ComplementSum(s);
    ResidueIsFixed();
  }

  // ----- the loop of crc32.h

  lemma NarrowComplement(s: bv32)
    ensures (!(s as bv64) & 0xFFFF_FFFF) as bv32 == !s
  {
  }

  /** The final assignment to a u_int32_t drops the upper half. */
  lemma Finish(s: bv32)
    ensures (!Wide(s) & 0xFFFF_FFFF) as bv32 == Complement(s)
  {
    NarrowComplement(s);
  }

  lemma WideInitial()
    ensures Wide(INITIAL) == 0xFFFF_FFFF
  {
  }

  method Compute(buffer: array<bv8>, length: nat) returns (crc: bv32)
    requires length <= buffer.Length
    ensures crc == Crc(buffer[..length])
  {
    hide TableEntry, Step, Round, Wide, Complement;
    var acc: bv64 := 0xFFFF_FFFF;
    ghost var s := INITIAL;
    WideInitial();
    for i := 0 to length
      invariant acc == Wide(s)
      invariant Run(s, buffer[i..length]) == Run(INITIAL, buffer[..length])
    {
      assert buffer[i..length][1..] == buffer[i + 1..length];
      RoundIsStep(s, buffer[i]);
      acc := Round(acc, buffer[i]);
      s := Step(s, buffer[i]);
    }
    Finish(s);
    crc := (!acc & 0xFFFF_FFFF) as bv32;
  }

  // ----- the check value of this CRC

  /** The digits 1 to 9. */
  const DIGITS: seq<bv8> := [0x31, 0x32, 0x33, 0x34, 0x35, 0x36, 0x37, 0x38, 0x39]

  lemma StepTo(s: bv32, b: bv8, t: bv32)
    requires Shift8(Plus(s, OfByte(b))) == t
    ensures Step(s, b) == t
  {
    hide Shift8, Shifts, Plus;
    EightShifts(Plus(s, OfByte(b)));
  }

  lemma FirstDigit()
    ensures Step(0xFFFF_FFFF, 0x31) == 0x6F0A_661C
  {
    StepTo(0xFFFF_FFFF, 0x31, 0x6F0A_661C);
  }

  lemma SecondDigit()
    ensures Step(0x6F0A_661C, 0x32) == 0x8CAA_3B9F
  {
    StepTo(0x6F0A_661C, 0x32, 0x8CAA_3B9F);
  }

  lemma ThirdDigit()
    ensures Step(0x8CAA_3B9F, 0x33) == 0xEF84_D04D
  {
    StepTo(0x8CAA_3B9F, 0x33, 0xEF84_D04D);
  }

  lemma FourthDigit()
    ensures Step(0xEF84_D04D, 0x34) == 0x09C5_0B11
  {
    StepTo(0xEF84_D04D, 0x34, 0x09C5_0B11);
  }

  lemma FifthDigit()
    ensures Step(0x09C5_0B11, 0x35) == 0xE72E_DCCA
  {
    StepTo(0x09C5_0B11, 0x35, 0xE72E_DCCA);
  }

  lemma SixthDigit()
    ensures Step(0xE72E_DCCA, 0x36) == 0xBECA_8E79
  {
    StepTo(0xE72E_DCCA, 0x36, 0xBECA_8E79);
  }

  lemma SeventhDigit()
    ensures Step(0xBECA_8E79, 0x37) == 0xEDBD_6815
  {
    StepTo(0xBECA_8E79, 0x37, 0xEDBD_6815);
  }

  lemma EighthDigit()
    ensures Step(0xEDBD_6815, 0x38) == 0x9F78_7F65
  {
    StepTo(0xEDBD_6815, 0x38, 0x9F78_7F65);
  }

  lemma NinthDigit()
    ensures Step(0x9F78_7F65, 0x39) == 0x1CF9_6D7C
  {
    StepTo(0x9F78_7F65, 0x39, 0x1CF9_6D7C);
  }

  lemma RunFrom(i: nat, s: bv32, t: bv32)
    requires i < 9 && Step(s, DIGITS[i]) == t
    ensures Run(s, DIGITS[i..]) == Run(t, DIGITS[i + 1..])
  {
    hide Step;
    assert DIGITS[i..][1..] == DIGITS[i + 1..];
  }

  /** The CRC of the digits 1 to 9, by which implementations of CRC32c are compared. */
  lemma CheckValue()
    ensures Crc(DIGITS) == 0xE306_9283
  {
    hide Run, Step;
    FirstDigit();
    RunFrom(0, 0xFFFF_FFFF, 0x6F0A_661C);
    SecondDigit();
    RunFrom(1, 0x6F0A_661C, 0x8CAA_3B9F);
    ThirdDigit();
    RunFrom(2, 0x8CAA_3B9F, 0xEF84_D04D);
    FourthDigit();
    RunFrom(3, 0xEF84_D04D, 0x09C5_0B11);
    FifthDigit();
    RunFrom(4, 0x09C5_0B11, 0xE72E_DCCA);
    SixthDigit();
    RunFrom(5, 0xE72E_DCCA, 0xBECA_8E79);
    SeventhDigit();
    RunFrom(6, 0xBECA_8E79, 0xEDBD_6815);
    EighthDigit();
    RunFrom(7, 0xEDBD_6815, 0x9F78_7F65);
    NinthDigit();
    RunFrom(8, 0x9F78_7F65, 0x1CF9_6D7C);
    assert DIGITS[0..] == DIGITS && DIGITS[9..] == [];
    RunNone(0x1CF9_6D7C);
    Complemented();
  }

  lemma RunNone(s: bv32)
    ensures Run(s, []) == s
  {
  }

  lemma Complemented()
    ensures Complement(0x1CF9_6D7C) == 0xE306_9283
  {
  }
}
