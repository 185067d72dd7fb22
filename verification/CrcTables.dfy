/**
 The two tables of the driver and the proof that they are the tables of their
 polynomials, so that both ready-made configurations agree with the
 programmable path.
 */
module CrcTables {
  import opened Basics
  import opened Gf2Poly
  import opened Words
  import opened WordLiterals
  import opened CrcSpec
  import opened CrcTablePath

  // ----- the tables of the source, in 16 rows of 16

  function Crc32Row(r: nat): (row: seq<bv32>)
    requires r < 16
    ensures |row| == 16
  {
    match r
    case 0 =>
      [0x00000000, 0x77073096, 0xEE0E612C, 0x990951BA, 0x076DC419, 0x706AF48F, 0xE963A535, 0x9E6495A3,
       0x0EDB8832, 0x79DCB8A4, 0xE0D5E91E, 0x97D2D988, 0x09B64C2B, 0x7EB17CBD, 0xE7B82D07, 0x90BF1D91]
    case 1 =>
      [0x1DB71064, 0x6AB020F2, 0xF3B97148, 0x84BE41DE, 0x1ADAD47D, 0x6DDDE4EB, 0xF4D4B551, 0x83D385C7,
       0x136C9856, 0x646BA8C0, 0xFD62F97A, 0x8A65C9EC, 0x14015C4F, 0x63066CD9, 0xFA0F3D63, 0x8D080DF5]
    case 2 =>
      [0x3B6E20C8, 0x4C69105E, 0xD56041E4, 0xA2677172, 0x3C03E4D1, 0x4B04D447, 0xD20D85FD, 0xA50AB56B,
       0x35B5A8FA, 0x42B2986C, 0xDBBBC9D6, 0xACBCF940, 0x32D86CE3, 0x45DF5C75, 0xDCD60DCF, 0xABD13D59]
    case 3 =>
      [0x26D930AC, 0x51DE003A, 0xC8D75180, 0xBFD06116, 0x21B4F4B5, 0x56B3C423, 0xCFBA9599, 0xB8BDA50F,
       0x2802B89E, 0x5F058808, 0xC60CD9B2, 0xB10BE924, 0x2F6F7C87, 0x58684C11, 0xC1611DAB, 0xB6662D3D]
    case 4 =>
      [0x76DC4190, 0x01DB7106, 0x98D220BC, 0xEFD5102A, 0x71B18589, 0x06B6B51F, 0x9FBFE4A5, 0xE8B8D433,
       0x7807C9A2, 0x0F00F934, 0x9609A88E, 0xE10E9818, 0x7F6A0DBB, 0x086D3D2D, 0x91646C97, 0xE6635C01]
    case 5 =>
      [0x6B6B51F4, 0x1C6C6162, 0x856530D8, 0xF262004E, 0x6C0695ED, 0x1B01A57B, 0x8208F4C1, 0xF50FC457,
       0x65B0D9C6, 0x12B7E950, 0x8BBEB8EA, 0xFCB9887C, 0x62DD1DDF, 0x15DA2D49, 0x8CD37CF3, 0xFBD44C65]
    case 6 =>
      [0x4DB26158, 0x3AB551CE, 0xA3BC0074, 0xD4BB30E2, 0x4ADFA541, 0x3DD895D7, 0xA4D1C46D, 0xD3D6F4FB,
       0x4369E96A, 0x346ED9FC, 0xAD678846, 0xDA60B8D0, 0x44042D73, 0x33031DE5, 0xAA0A4C5F, 0xDD0D7CC9]
    case 7 =>
      [0x5005713C, 0x270241AA, 0xBE0B1010, 0xC90C2086, 0x5768B525, 0x206F85B3, 0xB966D409, 0xCE61E49F,
       0x5EDEF90E, 0x29D9C998, 0xB0D09822, 0xC7D7A8B4, 0x59B33D17, 0x2EB40D81, 0xB7BD5C3B, 0xC0BA6CAD]
    case 8 =>
      [0xEDB88320, 0x9ABFB3B6, 0x03B6E20C, 0x74B1D29A, 0xEAD54739, 0x9DD277AF, 0x04DB2615, 0x73DC1683,
       0xE3630B12, 0x94643B84, 0x0D6D6A3E, 0x7A6A5AA8, 0xE40ECF0B, 0x9309FF9D, 0x0A00AE27, 0x7D079EB1]
    case 9 =>
      [0xF00F9344, 0x8708A3D2, 0x1E01F268, 0x6906C2FE, 0xF762575D, 0x806567CB, 0x196C3671, 0x6E6B06E7,
       0xFED41B76, 0x89D32BE0, 0x10DA7A5A, 0x67DD4ACC, 0xF9B9DF6F, 0x8EBEEFF9, 0x17B7BE43, 0x60B08ED5]
    case 10 =>
      [0xD6D6A3E8, 0xA1D1937E, 0x38D8C2C4, 0x4FDFF252, 0xD1BB67F1, 0xA6BC5767, 0x3FB506DD, 0x48B2364B,
       0xD80D2BDA, 0xAF0A1B4C, 0x36034AF6, 0x41047A60, 0xDF60EFC3, 0xA867DF55, 0x316E8EEF, 0x4669BE79]
    case 11 =>
      [0xCB61B38C, 0xBC66831A, 0x256FD2A0, 0x5268E236, 0xCC0C7795, 0xBB0B4703, 0x220216B9, 0x5505262F,
       0xC5BA3BBE, 0xB2BD0B28, 0x2BB45A92, 0x5CB36A04, 0xC2D7FFA7, 0xB5D0CF31, 0x2CD99E8B, 0x5BDEAE1D]
    case 12 =>
      [0x9B64C2B0, 0xEC63F226, 0x756AA39C, 0x026D930A, 0x9C0906A9, 0xEB0E363F, 0x72076785, 0x05005713,
       0x95BF4A82, 0xE2B87A14, 0x7BB12BAE, 0x0CB61B38, 0x92D28E9B, 0xE5D5BE0D, 0x7CDCEFB7, 0x0BDBDF21]
    case 13 =>
      [0x86D3D2D4, 0xF1D4E242, 0x68DDB3F8, 0x1FDA836E, 0x81BE16CD, 0xF6B9265B, 0x6FB077E1, 0x18B74777,
       0x88085AE6, 0xFF0F6A70, 0x66063BCA, 0x11010B5C, 0x8F659EFF, 0xF862AE69, 0x616BFFD3, 0x166CCF45]
    case 14 =>
      [0xA00AE278, 0xD70DD2EE, 0x4E048354, 0x3903B3C2, 0xA7672661, 0xD06016F7, 0x4969474D, 0x3E6E77DB,
       0xAED16A4A, 0xD9D65ADC, 0x40DF0B66, 0x37D83BF0, 0xA9BCAE53, 0xDEBB9EC5, 0x47B2CF7F, 0x30B5FFE9]
    case 15 =>
      [0xBDBDF21C, 0xCABAC28A, 0x53B39330, 0x24B4A3A6, 0xBAD03605, 0xCDD70693, 0x54DE5729, 0x23D967BF,
       0xB3667A2E, 0xC4614AB8, 0x5D681B02, 0x2A6F2B94, 0xB40BBE37, 0xC30C8EA1, 0x5A05DF1B, 0x2D02EF8D]
  }

  function Crc16Row(r: nat): (row: seq<bv32>)
    requires r < 16
    ensures |row| == 16
  {
    match r
    case 0 =>
      [0x0000, 0xC0C1, 0xC181, 0x0140, 0xC301, 0x03C0, 0x0280, 0xC241,
       0xC601, 0x06C0, 0x0780, 0xC741, 0x0500, 0xC5C1, 0xC481, 0x0440]
    case 1 =>
      [0xCC01, 0x0CC0, 0x0D80, 0xCD41, 0x0F00, 0xCFC1, 0xCE81, 0x0E40,
       0x0A00, 0xCAC1, 0xCB81, 0x0B40, 0xC901, 0x09C0, 0x0880, 0xC841]
    case 2 =>
      [0xD801, 0x18C0, 0x1980, 0xD941, 0x1B00, 0xDBC1, 0xDA81, 0x1A40,
       0x1E00, 0xDEC1, 0xDF81, 0x1F40, 0xDD01, 0x1DC0, 0x1C80, 0xDC41]
    case 3 =>
      [0x1400, 0xD4C1, 0xD581, 0x1540, 0xD701, 0x17C0, 0x1680, 0xD641,
       0xD201, 0x12C0, 0x1380, 0xD341, 0x1100, 0xD1C1, 0xD081, 0x1040]
    case 4 =>
      [0xF001, 0x30C0, 0x3180, 0xF141, 0x3300, 0xF3C1, 0xF281, 0x3240,
       0x3600, 0xF6C1, 0xF781, 0x3740, 0xF501, 0x35C0, 0x3480, 0xF441]
    case 5 =>
      [0x3C00, 0xFCC1, 0xFD81, 0x3D40, 0xFF01, 0x3FC0, 0x3E80, 0xFE41,
       0xFA01, 0x3AC0, 0x3B80, 0xFB41, 0x3900, 0xF9C1, 0xF881, 0x3840]
    case 6 =>
      [0x2800, 0xE8C1, 0xE981, 0x2940, 0xEB01, 0x2BC0, 0x2A80, 0xEA41,
       0xEE01, 0x2EC0, 0x2F80, 0xEF41, 0x2D00, 0xEDC1, 0xEC81, 0x2C40]
    case 7 =>
      [0xE401, 0x24C0, 0x2580, 0xE541, 0x2700, 0xE7C1, 0xE681, 0x2640,
       0x2200, 0xE2C1, 0xE381, 0x2340, 0xE101, 0x21C0, 0x2080, 0xE041]
    case 8 =>
      [0xA001, 0x60C0, 0x6180, 0xA141, 0x6300, 0xA3C1, 0xA281, 0x6240,
       0x6600, 0xA6C1, 0xA781, 0x6740, 0xA501, 0x65C0, 0x6480, 0xA441]
    case 9 =>
      [0x6C00, 0xACC1, 0xAD81, 0x6D40, 0xAF01, 0x6FC0, 0x6E80, 0xAE41,
       0xAA01, 0x6AC0, 0x6B80, 0xAB41, 0x6900, 0xA9C1, 0xA881, 0x6840]
    case 10 =>
      [0x7800, 0xB8C1, 0xB981, 0x7940, 0xBB01, 0x7BC0, 0x7A80, 0xBA41,
       0xBE01, 0x7EC0, 0x7F80, 0xBF41, 0x7D00, 0xBDC1, 0xBC81, 0x7C40]
    case 11 =>
      [0xB401, 0x74C0, 0x7580, 0xB541, 0x7700, 0xB7C1, 0xB681, 0x7640,
       0x7200, 0xB2C1, 0xB381, 0x7340, 0xB101, 0x71C0, 0x7080, 0xB041]
    case 12 =>
      [0x5000, 0x90C1, 0x9181, 0x5140, 0x9301, 0x53C0, 0x5280, 0x9241,
       0x9601, 0x56C0, 0x5780, 0x9741, 0x5500, 0x95C1, 0x9481, 0x5440]
    case 13 =>
      [0x9C01, 0x5CC0, 0x5D80, 0x9D41, 0x5F00, 0x9FC1, 0x9E81, 0x5E40,
       0x5A00, 0x9AC1, 0x9B81, 0x5B40, 0x9901, 0x59C0, 0x5880, 0x9841]
    case 14 =>
      [0x8801, 0x48C0, 0x4980, 0x8941, 0x4B00, 0x8BC1, 0x8A81, 0x4A40,
       0x4E00, 0x8EC1, 0x8F81, 0x4F40, 0x8D01, 0x4DC0, 0x4C80, 0x8C41]
    case 15 =>
      [0x4400, 0x84C1, 0x8581, 0x4540, 0x8701, 0x47C0, 0x4680, 0x8641,
       0x8201, 0x42C0, 0x4380, 0x8341, 0x4100, 0x81C1, 0x8081, 0x4040]
  }

  /** The first column of the tables, the entries for 0, 16, 32, ... */
  function Crc32Column(): seq<bv32> {
    [0x00000000, 0x1DB71064, 0x3B6E20C8, 0x26D930AC, 0x76DC4190, 0x6B6B51F4, 0x4DB26158, 0x5005713C,
     0xEDB88320, 0xF00F9344, 0xD6D6A3E8, 0xCB61B38C, 0x9B64C2B0, 0x86D3D2D4, 0xA00AE278, 0xBDBDF21C]
  }

  function Crc16Column(): seq<bv32> {
    [0x0000, 0xCC01, 0xD801, 0x1400, 0xF001, 0x3C00, 0x2800, 0xE401,
     0xA001, 0x6C00, 0x7800, 0xB401, 0x5000, 0x9C01, 0x8801, 0x4400]
  }

  // ----- what makes a table the table of a polynomial

  /** One step of the mirrored division, on machine words. */
  function BvStep(x: bv32, p: bv32): bv32 {
    BvXor(BvHalf(x), if BvLow(x) then p else 0)
  }

  /** The entries for 1, 2, 4 and 8 give the other entries of a row. */
  predicate LinearRow(e: seq<bv32>) {
    && |e| == 16
    && e[0] == 0
    && e[3] == BvXor(e[2], e[1])
    && e[4] == BvXor(e[4], e[0]) && e[5] == BvXor(e[4], e[1])
    && e[6] == BvXor(e[4], e[2]) && e[7] == BvXor(e[4], e[3])
    && e[8] == BvXor(e[8], e[0]) && e[9] == BvXor(e[8], e[1])
    && e[10] == BvXor(e[8], e[2]) && e[11] == BvXor(e[8], e[3])
    && e[12] == BvXor(e[8], e[4]) && e[13] == BvXor(e[8], e[5])
    && e[14] == BvXor(e[8], e[6]) && e[15] == BvXor(e[8], e[7])
  }

  /** `row` is the row `first` with its own first entry added. */
  predicate ShiftedRow(row: seq<bv32>, first: seq<bv32>) {
    && |row| == |first| == 16
    && first[0] == 0
    && row[1] == BvXor(row[0], first[1])
    && row[2] == BvXor(row[0], first[2])
    && row[3] == BvXor(row[0], first[3])
    && row[4] == BvXor(row[0], first[4])
    && row[5] == BvXor(row[0], first[5])
    && row[6] == BvXor(row[0], first[6])
    && row[7] == BvXor(row[0], first[7])
    && row[8] == BvXor(row[0], first[8])
    && row[9] == BvXor(row[0], first[9])
    && row[10] == BvXor(row[0], first[10])
    && row[11] == BvXor(row[0], first[11])
    && row[12] == BvXor(row[0], first[12])
    && row[13] == BvXor(row[0], first[13])
    && row[14] == BvXor(row[0], first[14])
    && row[15] == BvXor(row[0], first[15])
  }

  /** `row[j]`, for any j. */
  lemma ShiftedRowAt(row: seq<bv32>, first: seq<bv32>, j: nat)
    requires ShiftedRow(row, first) && j < 16
    ensures row[j] == BvXor(row[0], first[j])
  {
    assert BvXor(row[0], 0) == row[0];
    hide BvXor;
  }

  /** The entries for one bit, from 128 down to 1: each is one more step on the polynomial. */
  predicate Basis(column: seq<bv32>, first: seq<bv32>, p: bv32) {
    && |column| == 16 && |first| == 16
    && column[8] == p
    && column[4] == BvStep(column[8], p)
    && column[2] == BvStep(column[4], p)
    && column[1] == BvStep(column[2], p)
    && first[8] == BvStep(column[1], p)
    && first[4] == BvStep(first[8], p)
    && first[2] == BvStep(first[4], p)
    && first[1] == BvStep(first[2], p)
  }

  // ----- literals

  lemma FromBvStep(x: bv32, p: bv32)
    ensures FromBv(BvStep(x, p)) == ReflStep(FromBv(x), FromBv(p))
  {
    assert BvStep(x, p) == BvXor(BvHalf(x), if BvLow(x) then p else 0);
    hide BvStep, BvXor, BvHalf, BvLow, BvBit;
    FromBvHalf(x);
    FromBvXor(BvHalf(x), p);
    FromBvXor(BvHalf(x), 0);
    FromBvZero();
    assert Add(FromBv(BvHalf(x)), {}) == FromBv(BvHalf(x));
  }

  /** The positions of the 1 bits among the low `n` bits of `x`, counted from `base`. */
  function Positions(x: bv32, n: nat, base: nat): set<nat>
    decreases n
  {
    if n == 0 then {}
    else if BvLow(x) then {base} + Positions(BvHalf(x), n - 1, base + 1)
    else Positions(BvHalf(x), n - 1, base + 1)
  }

  /** The positions of the 1 bits among the low four bits of `x`. */
  function NibblePositions(x: bv32, base: nat): set<nat> {
    (if x & 1 != 0 then {base} else {}) + (if x & 2 != 0 then {base + 1} else {})
    + (if x & 4 != 0 then {base + 2} else {}) + (if x & 8 != 0 then {base + 3} else {})
  }

  function BvShift4(x: bv32): bv32 {
    x >> 4
  }

  /** Four bits at once, the way a hexadecimal literal is read. */
  lemma PositionsNibble(x: bv32, n: nat, base: nat, rest: bv32)
    requires n >= 4 && rest == BvShift4(x)
    ensures Positions(x, n, base) == NibblePositions(x, base) + Positions(rest, n - 4, base + 4)
  {
    var x1 := BvHalf(x);
    var x2 := BvHalf(x1);
    var x3 := BvHalf(x2);
    assert BvHalf(x3) == rest;
    assert BvLow(x) == (x & 1 != 0) && BvLow(x1) == (x & 2 != 0) && BvLow(x2) == (x & 4 != 0) &&
        BvLow(x3) == (x & 8 != 0);
    hide BvLow, BvHalf;
    assert Positions(x3, n - 3, base + 3) == (if BvLow(x3) then {base + 3} else {}) + Positions(rest, n - 4, base + 4);
    assert Positions(x2, n - 2, base + 2) == (if BvLow(x2) then {base + 2} else {}) + Positions(x3, n - 3, base + 3);
    assert Positions(x1, n - 1, base + 1) == (if BvLow(x1) then {base + 1} else {}) + Positions(x2, n - 2, base + 2);
    assert Positions(x, n, base) == (if BvLow(x) then {base} else {}) + Positions(x1, n - 1, base + 1);
  }

  lemma FourDigits(x0: bv32, x1: bv32, x2: bv32, x3: bv32, x4: bv32, n: nat, base: nat)
    requires x1 == BvShift4(x0) && x2 == BvShift4(x1) && x3 == BvShift4(x2) && x4 == BvShift4(x3) && n >= 16
    ensures Positions(x0, n, base)
         == NibblePositions(x0, base) + (NibblePositions(x1, base + 4) + (NibblePositions(x2, base + 8)
          + (NibblePositions(x3, base + 12) + Positions(x4, n - 16, base + 16))))
  {
    hide *;
    calc {
      Positions(x0, n, base);
    ==  { PositionsNibble(x0, n, base, x1); }
      NibblePositions(x0, base) + Positions(x1, n - 4, base + 4);
    ==  { PositionsNibble(x1, n - 4, base + 4, x2); }
      NibblePositions(x0, base) + (NibblePositions(x1, base + 4) + Positions(x2, n - 8, base + 8));
    ==  { PositionsNibble(x2, n - 8, base + 8, x3); }
      NibblePositions(x0, base) + (NibblePositions(x1, base + 4)
          + (NibblePositions(x2, base + 8) + Positions(x3, n - 12, base + 12)));
    ==  { PositionsNibble(x3, n - 12, base + 12, x4); }
      NibblePositions(x0, base) + (NibblePositions(x1, base + 4) + (NibblePositions(x2, base + 8)
        + (NibblePositions(x3, base + 12) + Positions(x4, n - 16, base + 16))));
    }
  }

  lemma {:induction false} PositionsAre(x: bv32, n: nat, base: nat, i: nat)
    ensures i in Positions(x, n, base) <==> base <= i < base + n && BvBit(x, i - base)
    decreases n
  {
    hide BvLow, BvHalf;
    if n != 0 {
      PositionsAre(BvHalf(x), n - 1, base + 1, i);
    }
  }

  lemma FromBvPositions(x: bv32)
    ensures FromBv(x) == Positions(x, 32, 0)
  {
    hide Positions, BvBit;
    forall i: nat ensures i in FromBv(x) <==> i in Positions(x, 32, 0) {
      PositionsAre(x, 32, 0, i);
    }
  }

  // ----- a linear table with the right basis is the table of its polynomial

  lemma {:induction false} ReflStepsCommute(x: Word, rp: Word, k: nat)
    ensures ReflSteps(ReflStep(x, rp), rp, k) == ReflStep(ReflSteps(x, rp, k), rp)
    decreases k
  {
    hide ReflStep;
    if k != 0 {
      ReflStepsCommute(x, rp, k - 1);
    }
  }

  /** The table entry of a single bit comes from that of the next higher bit by one step. */
  lemma OneBit(k: nat, rp: Word)
    requires k < 7
    ensures ReflSteps({k}, rp, 8) == ReflStep(ReflSteps({k + 1}, rp, 8), rp)
  {
    hide ReflSteps, ReflStep;
    StepDown(k, rp);
    ReflStepsCommute({k + 1}, rp, 8);
  }

  lemma StepDown(k: nat, rp: Word)
    requires k < 7
    ensures ReflStep({k + 1}, rp) == {k}
  {
    assert ShiftRight({k + 1}, 1) == {k};
  }

  lemma TopBit(rp: Word)
    ensures ReflSteps({7}, rp, 8) == rp
  {
    hide ReflSteps, ReflStep;
    ReflStepsShift({7}, rp, 7);
    assert ShiftRight({7}, 7) == {0};
    ReflStepsMore({7}, rp, 7);
    LastStep(rp);
  }

  lemma ReflStepsMore(x: Word, rp: Word, k: nat)
    ensures ReflSteps(x, rp, k + 1) == ReflStep(ReflSteps(x, rp, k), rp)
  {
    hide ReflStep;
  }

  lemma LastStep(rp: Word)
    ensures ReflStep({0}, rp) == rp
  {
    assert ShiftRight({0}, 1) == {};
    assert Xor({}, rp) == rp;
  }

  /** Entry `e` is the table entry for the single bit `k`. */
  ghost predicate BitEntry(e: bv32, k: nat, p: bv32)
    requires k < 8
  {
    FromBv(e) == ReflSteps({k}, FromBv(p), 8)
  }

  lemma BitEntryStep(e: bv32, d: bv32, k: nat, p: bv32)
    requires k < 7 && BitEntry(d, k + 1, p) && e == BvStep(d, p)
    ensures BitEntry(e, k, p)
  {
    hide BvStep, ReflStep, ReflSteps;
    FromBvStep(d, p);
    OneBit(k, FromBv(p));
  }

  lemma BasisEntries(column: seq<bv32>, first: seq<bv32>, p: bv32)
    requires Basis(column, first, p)
    ensures BitEntry(column[8], 7, p) && BitEntry(column[4], 6, p)
    ensures BitEntry(column[2], 5, p) && BitEntry(column[1], 4, p)
    ensures BitEntry(first[8], 3, p) && BitEntry(first[4], 2, p)
    ensures BitEntry(first[2], 1, p) && BitEntry(first[1], 0, p)
  {
    TopBit(FromBv(p));
    hide BvStep, ReflStep, ReflSteps;
    BitEntryStep(column[4], column[8], 6, p);
    BitEntryStep(column[2], column[4], 5, p);
    BitEntryStep(column[1], column[2], 4, p);
    BitEntryStep(first[8], column[1], 3, p);
    BitEntryStep(first[4], first[8], 2, p);
    BitEntryStep(first[2], first[4], 1, p);
    BitEntryStep(first[1], first[2], 0, p);
  }

  /** Adding the top bit `i` of a nibble adds its table entry. */
  lemma NibbleStep(e: bv32, top: bv32, rest: bv32, s: Word, r: Word, k: nat, p: bv32)
    requires k < 8 && e == BvXor(top, rest) && BitEntry(top, k, p)
    requires FromBv(rest) == ReflSteps(r, FromBv(p), 8)
    requires s == Xor({k}, r)
    ensures FromBv(e) == ReflSteps(s, FromBv(p), 8)
  {
    hide BvXor, ReflSteps;
    FromBvXor(top, rest);
    ReflStepsLinear({k}, r, FromBv(p), 8);
  }

  /** A linear row holds the entries of all sums of its four single bits base..base+3. */
  lemma {:induction false} NibbleEntry(e: seq<bv32>, s: Word, base: nat, p: bv32)
    requires LinearRow(e) && Below(s, 4) && base <= 4
    requires BitEntry(e[1], base, p) && BitEntry(e[2], base + 1, p)
    requires BitEntry(e[4], base + 2, p) && BitEntry(e[8], base + 3, p)
    ensures FromBv(e[Nibble(s)]) == ReflSteps(ShiftLeft(s, base), FromBv(p), 8)
    decreases |s|
  {
    hide BvXor, ReflSteps, BitEntry, FromBv;
    if s == {} {
      assert ShiftLeft(s, base) == {};
      ZeroEntry(p);
    } else {
      var i := if 3 in s then 3 else if 2 in s then 2 else if 1 in s then 1 else 0;
      var r: Word := s - {i};
      NibbleEntry(e, r, base, p);
      assert ShiftLeft(s, base) == Xor({base + i}, ShiftLeft(r, base));
      var top := if i == 3 then e[8] else if i == 2 then e[4] else if i == 1 then e[2] else e[1];
      assert e[Nibble(s)] == BvXor(top, e[Nibble(r)]) by {
        LinearRowAt(e, s, r, i);
      }
      NibbleStep(e[Nibble(s)], top, e[Nibble(r)], ShiftLeft(s, base), ShiftLeft(r, base), base + i, p);
    }
  }

  lemma LinearRowAt(e: seq<bv32>, s: Word, r: Word, i: nat)
    requires LinearRow(e) && Below(s, 4) && i < 4 && i in s && r == s - {i}
    requires forall j :: j in s ==> j <= i
    ensures e[Nibble(s)] == BvXor(e[BitWeight(i)], e[Nibble(r)])
  {
    hide BvXor, Nibble, LinearRow;
    TopOfNibble(s, r, i);
    LinearRowGives(e, i, Nibble(r));
  }

  /** The largest bit of a nibble and the rest of it. */
  lemma TopOfNibble(s: Word, r: Word, i: nat)
    requires Below(s, 4) && i < 4 && i in s && r == s - {i} && forall j :: j in s ==> j <= i
    ensures Nibble(r) < BitWeight(i) && Nibble(s) == BitWeight(i) + Nibble(r)
  {
  }

  function BitWeight(i: nat): nat {
    if i == 3 then 8 else if i == 2 then 4 else if i == 1 then 2 else 1
  }

  lemma LinearRowGives(e: seq<bv32>, i: nat, v: nat)
    requires LinearRow(e) && i < 4 && v < BitWeight(i)
    ensures BitWeight(i) + v < 16 && e[BitWeight(i) + v] == BvXor(e[BitWeight(i)], e[v])
  {
    hide BvXor;
    XorNothing(e[1]);
    XorNothing(e[2]);
    assert v == 0 || v == 1 || v == 2 || v == 3 || v == 4 || v == 5 || v == 6 || v == 7;
  }

  lemma XorNothing(x: bv32)
    ensures BvXor(x, 0) == x
  {
  }

  lemma ZeroEntry(p: bv32)
    ensures FromBv(0) == ReflSteps({}, FromBv(p), 8)
  {
    FromBvZero();
    ReflStepsShift({}, FromBv(p), 8);
    assert ShiftRight({}, 8) == {};
  }

  /** The entry for any byte. */
  lemma ByteEntry(row: seq<bv32>, first: seq<bv32>, column: seq<bv32>, x: Octet, p: bv32)
    requires LinearRow(first) && LinearRow(column) && Basis(column, first, p)
    requires ShiftedRow(row, first) && row[0] == column[Nibble(ShiftRight(x, 4))]
    ensures FromBv(row[Nibble(Low(x, 4))]) == ReflSteps(x, FromBv(p), 8)
  {
    hide ReflSteps, ReflStep, BvXor, BvStep, FromBv, ShiftLeft, ShiftRight, Low, Nibble, Basis, LinearRow, ShiftedRow,
        BitEntry;
    var h, l := ShiftRight(x, 4), Low(x, 4);
    NibbleBounds(x);
    Lengths(row, first, column);
    var e, c, f := row[Nibble(l)], column[Nibble(h)], first[Nibble(l)];
    assert e == BvXor(c, f) by {
      ShiftedRowAt(row, first, Nibble(l));
    }
    assert FromBv(c) == ReflSteps(ShiftLeft(h, 4), FromBv(p), 8) by {
      BasisEntries(column, first, p);
      NibbleEntry(column, h, 4, p);
    }
    assert FromBv(f) == ReflSteps(ShiftLeft(l, 0), FromBv(p), 8) by {
      BasisEntries(column, first, p);
      NibbleEntry(first, l, 0, p);
    }
    JoinEntries(e, c, f, x, p);
  }

  lemma Lengths(row: seq<bv32>, first: seq<bv32>, column: seq<bv32>)
    requires LinearRow(column) && ShiftedRow(row, first)
    ensures |row| == |first| == |column| == 16
  {
  }

  lemma JoinEntries(e: bv32, c: bv32, f: bv32, x: Octet, p: bv32)
    requires e == BvXor(c, f)
    requires FromBv(c) == ReflSteps(ShiftLeft(ShiftRight(x, 4), 4), FromBv(p), 8)
    requires FromBv(f) == ReflSteps(ShiftLeft(Low(x, 4), 0), FromBv(p), 8)
    ensures FromBv(e) == ReflSteps(x, FromBv(p), 8)
  {
    hide ReflSteps, BvXor, FromBv, ShiftLeft, ShiftRight, Low;
    FromBvXor(c, f);
    JoinNibbles(x, FromBv(p));
  }

  lemma NibbleBounds(x: Octet)
    ensures Below(ShiftRight(x, 4), 4) && Below(Low(x, 4), 4)
  {
  }

  lemma JoinNibbles(x: Octet, rp: Word)
    ensures ReflSteps(x, rp, 8)
         == Add(ReflSteps(ShiftLeft(ShiftRight(x, 4), 4), rp, 8), ReflSteps(ShiftLeft(Low(x, 4), 0), rp, 8))
  {
    hide ReflSteps;
    var h, l := ShiftLeft(ShiftRight(x, 4), 4), ShiftLeft(Low(x, 4), 0);
    assert x == Xor(h, l);
    ReflStepsLinear(h, l, rp, 8);
  }

  /** (1 << n) - 1 */
  function Ones(n: nat): (w: Poly)
    ensures forall i: nat {:trigger i in w} :: i in w <==> i < n
  {
    if n == 0 then {} else {n - 1} + Ones(n - 1)
  }

  // ----- Crc32

  lemma Crc32Row0() ensures LinearRow(Crc32Row(0)) && ShiftedRow(Crc32Row(0), Crc32Row(0)) {}

  lemma Crc32ColumnLinear() ensures LinearRow(Crc32Column()) {}

  lemma Crc32Row1() ensures ShiftedRow(Crc32Row(1), Crc32Row(0)) && Crc32Row(1)[0] == Crc32Column()[1] {}

  lemma Crc32Row2() ensures ShiftedRow(Crc32Row(2), Crc32Row(0)) && Crc32Row(2)[0] == Crc32Column()[2] {}

  lemma Crc32Row3() ensures ShiftedRow(Crc32Row(3), Crc32Row(0)) && Crc32Row(3)[0] == Crc32Column()[3] {}

  lemma Crc32Row4() ensures ShiftedRow(Crc32Row(4), Crc32Row(0)) && Crc32Row(4)[0] == Crc32Column()[4] {}

  lemma Crc32Row5() ensures ShiftedRow(Crc32Row(5), Crc32Row(0)) && Crc32Row(5)[0] == Crc32Column()[5] {}

  lemma Crc32Row6() ensures ShiftedRow(Crc32Row(6), Crc32Row(0)) && Crc32Row(6)[0] == Crc32Column()[6] {}

  lemma Crc32Row7() ensures ShiftedRow(Crc32Row(7), Crc32Row(0)) && Crc32Row(7)[0] == Crc32Column()[7] {}

  lemma Crc32Row8() ensures ShiftedRow(Crc32Row(8), Crc32Row(0)) && Crc32Row(8)[0] == Crc32Column()[8] {}

  lemma Crc32Row9() ensures ShiftedRow(Crc32Row(9), Crc32Row(0)) && Crc32Row(9)[0] == Crc32Column()[9] {}

  lemma Crc32Row10() ensures ShiftedRow(Crc32Row(10), Crc32Row(0)) && Crc32Row(10)[0] == Crc32Column()[10] {}

  lemma Crc32Row11() ensures ShiftedRow(Crc32Row(11), Crc32Row(0)) && Crc32Row(11)[0] == Crc32Column()[11] {}

  lemma Crc32Row12() ensures ShiftedRow(Crc32Row(12), Crc32Row(0)) && Crc32Row(12)[0] == Crc32Column()[12] {}

  lemma Crc32Row13() ensures ShiftedRow(Crc32Row(13), Crc32Row(0)) && Crc32Row(13)[0] == Crc32Column()[13] {}

  lemma Crc32Row14() ensures ShiftedRow(Crc32Row(14), Crc32Row(0)) && Crc32Row(14)[0] == Crc32Column()[14] {}

  lemma Crc32Row15() ensures ShiftedRow(Crc32Row(15), Crc32Row(0)) && Crc32Row(15)[0] == Crc32Column()[15] {}

  lemma Crc32Shifted(r: nat)
    requires r < 16
    ensures ShiftedRow(Crc32Row(r), Crc32Row(0)) && Crc32Row(r)[0] == Crc32Column()[r]
  {
    assert Crc32Row(0)[0] == Crc32Column()[0];
    hide ShiftedRow, LinearRow, Crc32Row;
    match r
    case 0 => Crc32Row0();
    case 1 => Crc32Row1();
    case 2 => Crc32Row2();
    case 3 => Crc32Row3();
    case 4 => Crc32Row4();
    case 5 => Crc32Row5();
    case 6 => Crc32Row6();
    case 7 => Crc32Row7();
    case 8 => Crc32Row8();
    case 9 => Crc32Row9();
    case 10 => Crc32Row10();
    case 11 => Crc32Row11();
    case 12 => Crc32Row12();
    case 13 => Crc32Row13();
    case 14 => Crc32Row14();
    case 15 => Crc32Row15();
  }

  lemma Crc32Basis() ensures Basis(Crc32Column(), Crc32Row(0), 0xEDB88320) {}

  function Crc32Table(): (t: seq<Word>)
    ensures |t| == 256
  {
    seq(256, i requires 0 <= i < 256 => FromBv(Crc32Row(i / 16)[i % 16]))
  }

  lemma Crc32Entry(x: Octet)
    ensures Crc32Table()[Value(x)] == ReflSteps(x, FromBv(0xEDB88320), 8)
  {
    hide ReflSteps, FromBv, ShiftRight, Low, Nibble, Basis, LinearRow, ShiftedRow, Crc32Row, Crc32Column;
    var h, l := Nibble(ShiftRight(x, 4)), Nibble(Low(x, 4));
    assert Value(x) / 16 == h && Value(x) % 16 == l;
    Crc32Basis();
    Crc32Row0();
    Crc32ColumnLinear();
    Crc32Shifted(h);
    ByteEntry(Crc32Row(h), Crc32Row(0), Crc32Column(), x, 0xEDB88320);
  }

  lemma Crc32PolyDigits()
    ensures NibblePositions(0x4C11DB7, 0) == {0, 1, 2}
    ensures NibblePositions(0x4C11DB, 4) == {4, 5, 7}
    ensures NibblePositions(0x4C11D, 8) == {8, 10, 11}
    ensures NibblePositions(0x4C11, 12) == {12}
    ensures NibblePositions(0x4C1, 16) == {16}
    ensures NibblePositions(0x4C, 20) == {22, 23}
    ensures NibblePositions(0x4, 24) == {26}
    ensures NibblePositions(0x0, 28) == {}
  {
  }

  lemma Crc32PolyHigh()
    ensures Positions(0x4C1, 16, 16) == {16, 22, 23, 26}
  {
    assert Positions(0, 0, 32) == {};
    hide Positions, NibblePositions;
    FourDigits(0x4C1, 0x4C, 0x4, 0x0, 0, 16, 16);
    Crc32PolyDigits();
    var none: set<nat> := {};
    assert none + none == none;
    assert {26} + none == {26};
    assert {22, 23} + {26} == {22, 23, 26};
    assert {16} + {22, 23, 26} == {16, 22, 23, 26};
  }

  lemma Crc32PolyPositions()
    ensures FromBv(0x04C11DB7) == {0, 1, 2, 4, 5, 7, 8, 10, 11, 12, 16, 22, 23, 26}
  {
    hide Positions, NibblePositions, FromBv, BvBit;
    FourDigits(0x4C11DB7, 0x4C11DB, 0x4C11D, 0x4C11, 0x4C1, 32, 0);
    FromBvPositions(0x04C11DB7);
    Crc32PolyDigits();
    Crc32PolyHigh();
    var none: set<nat> := {};
    assert {12} + {16, 22, 23, 26} == {12, 16, 22, 23, 26};
    assert {8, 10, 11} + {12, 16, 22, 23, 26} == {8, 10, 11, 12, 16, 22, 23, 26};
    assert {4, 5, 7} + {8, 10, 11, 12, 16, 22, 23, 26} == {4, 5, 7, 8, 10, 11, 12, 16, 22, 23, 26};
    assert {0, 1, 2} + {4, 5, 7, 8, 10, 11, 12, 16, 22, 23, 26} == {0, 1, 2, 4, 5, 7, 8, 10, 11, 12, 16, 22, 23, 26};
  }

  lemma Crc32MirrorDigits()
    ensures NibblePositions(0xEDB88320, 0) == {}
    ensures NibblePositions(0xEDB8832, 4) == {5}
    ensures NibblePositions(0xEDB883, 8) == {8, 9}
    ensures NibblePositions(0xEDB88, 12) == {15}
    ensures NibblePositions(0xEDB8, 16) == {19}
    ensures NibblePositions(0xEDB, 20) == {20, 21, 23}
    ensures NibblePositions(0xED, 24) == {24, 26, 27}
    ensures NibblePositions(0xE, 28) == {29, 30, 31}
  {
  }

  lemma Crc32MirrorHigh()
    ensures Positions(0xEDB8, 16, 16) == {19, 20, 21, 23, 24, 26, 27, 29, 30, 31}
  {
    assert Positions(0, 0, 32) == {};
    hide Positions, NibblePositions;
    FourDigits(0xEDB8, 0xEDB, 0xED, 0xE, 0, 16, 16);
    Crc32MirrorDigits();
    var none: set<nat> := {};
    assert {29, 30, 31} + none == {29, 30, 31};
    assert {24, 26, 27} + {29, 30, 31} == {24, 26, 27, 29, 30, 31};
    assert {20, 21, 23} + {24, 26, 27, 29, 30, 31} == {20, 21, 23, 24, 26, 27, 29, 30, 31};
    assert {19} + {20, 21, 23, 24, 26, 27, 29, 30, 31} == {19, 20, 21, 23, 24, 26, 27, 29, 30, 31};
  }

  lemma Crc32MirrorPositions()
    ensures FromBv(0xEDB88320) == {5, 8, 9, 15, 19, 20, 21, 23, 24, 26, 27, 29, 30, 31}
  {
    hide Positions, NibblePositions, FromBv, BvBit;
    FourDigits(0xEDB88320, 0xEDB8832, 0xEDB883, 0xEDB88, 0xEDB8, 32, 0);
    FromBvPositions(0xEDB88320);
    Crc32MirrorDigits();
    Crc32MirrorHigh();
    var none: set<nat> := {};
    assert {15} + {19, 20, 21, 23, 24, 26, 27, 29, 30, 31} == {15, 19, 20, 21, 23, 24, 26, 27, 29, 30, 31};
    assert {8, 9} + {15, 19, 20, 21, 23, 24, 26, 27, 29, 30, 31} == {8, 9, 15, 19, 20, 21, 23, 24, 26, 27, 29, 30, 31};
    assert {5} + {8, 9, 15, 19, 20, 21, 23, 24, 26, 27, 29, 30, 31}
        == {5, 8, 9, 15, 19, 20, 21, 23, 24, 26, 27, 29, 30, 31};
    assert none + {5, 8, 9, 15, 19, 20, 21, 23, 24, 26, 27, 29, 30, 31}
        == {5, 8, 9, 15, 19, 20, 21, 23, 24, 26, 27, 29, 30, 31};
  }

  /** The configuration `crcsw_crc32_config`. */
  function Crc32Config(): (cfg: Config)
    ensures cfg.Valid()
  {
    Config(32, FromBv(0x04C11DB7), Ones(32), Ones(32), true, true, Some(Crc32Table()))
  }

  lemma Crc32Mirrored()
    ensures Mirrored(Crc32Config())
  {
    hide FromBv, Crc32Table, ReflSteps, Reflected, Value;
    Crc32Reflects();
    ReflectsCrc32Initial();
    forall x: Octet ensures Crc32Table()[Value(x)] == ReflSteps(x, FromBv(0xEDB88320), 8) {
      Crc32Entry(x);
    }
  }

  lemma ReflectsCrc32Initial()
    ensures Reflected(Ones(32), 32) == Ones(32)
  {
    forall e: nat ensures e in Reflected(Ones(32), 32) <==> e in Ones(32) {
    }
  }

  lemma Crc32Reflects()
    ensures Reflected(FromBv(0x04C11DB7), 32) == FromBv(0xEDB88320)
  {
    hide FromBv;
    Crc32PolyPositions();
    Crc32MirrorPositions();
  }

  /** Table path and programmable path return the same CRC of every byte sequence. */
  lemma Crc32Agrees(s: seq<Octet>)
    ensures Crc(s, Crc32Config()) == Crc(s, Crc32Config().(table := None))
  {
    hide Crc32Config, Mirrored, Crc;
    Crc32Mirrored();
    TablePathAgrees(s, Crc32Config());
  }

  // ----- Crc16

  lemma Crc16Row0() ensures LinearRow(Crc16Row(0)) && ShiftedRow(Crc16Row(0), Crc16Row(0)) {}

  lemma Crc16ColumnLinear() ensures LinearRow(Crc16Column()) {}

  lemma Crc16Row1() ensures ShiftedRow(Crc16Row(1), Crc16Row(0)) && Crc16Row(1)[0] == Crc16Column()[1] {}

  lemma Crc16Row2() ensures ShiftedRow(Crc16Row(2), Crc16Row(0)) && Crc16Row(2)[0] == Crc16Column()[2] {}

  lemma Crc16Row3() ensures ShiftedRow(Crc16Row(3), Crc16Row(0)) && Crc16Row(3)[0] == Crc16Column()[3] {}

  lemma Crc16Row4() ensures ShiftedRow(Crc16Row(4), Crc16Row(0)) && Crc16Row(4)[0] == Crc16Column()[4] {}

  lemma Crc16Row5() ensures ShiftedRow(Crc16Row(5), Crc16Row(0)) && Crc16Row(5)[0] == Crc16Column()[5] {}

  lemma Crc16Row6() ensures ShiftedRow(Crc16Row(6), Crc16Row(0)) && Crc16Row(6)[0] == Crc16Column()[6] {}

  lemma Crc16Row7() ensures ShiftedRow(Crc16Row(7), Crc16Row(0)) && Crc16Row(7)[0] == Crc16Column()[7] {}

  lemma Crc16Row8() ensures ShiftedRow(Crc16Row(8), Crc16Row(0)) && Crc16Row(8)[0] == Crc16Column()[8] {}

  lemma Crc16Row9() ensures ShiftedRow(Crc16Row(9), Crc16Row(0)) && Crc16Row(9)[0] == Crc16Column()[9] {}

  lemma Crc16Row10() ensures ShiftedRow(Crc16Row(10), Crc16Row(0)) && Crc16Row(10)[0] == Crc16Column()[10] {}

  lemma Crc16Row11() ensures ShiftedRow(Crc16Row(11), Crc16Row(0)) && Crc16Row(11)[0] == Crc16Column()[11] {}

  lemma Crc16Row12() ensures ShiftedRow(Crc16Row(12), Crc16Row(0)) && Crc16Row(12)[0] == Crc16Column()[12] {}

  lemma Crc16Row13() ensures ShiftedRow(Crc16Row(13), Crc16Row(0)) && Crc16Row(13)[0] == Crc16Column()[13] {}

  lemma Crc16Row14() ensures ShiftedRow(Crc16Row(14), Crc16Row(0)) && Crc16Row(14)[0] == Crc16Column()[14] {}

  lemma Crc16Row15() ensures ShiftedRow(Crc16Row(15), Crc16Row(0)) && Crc16Row(15)[0] == Crc16Column()[15] {}

  lemma Crc16Shifted(r: nat)
    requires r < 16
    ensures ShiftedRow(Crc16Row(r), Crc16Row(0)) && Crc16Row(r)[0] == Crc16Column()[r]
  {
    assert Crc16Row(0)[0] == Crc16Column()[0];
    hide ShiftedRow, LinearRow, Crc16Row;
    match r
    case 0 => Crc16Row0();
    case 1 => Crc16Row1();
    case 2 => Crc16Row2();
    case 3 => Crc16Row3();
    case 4 => Crc16Row4();
    case 5 => Crc16Row5();
    case 6 => Crc16Row6();
    case 7 => Crc16Row7();
    case 8 => Crc16Row8();
    case 9 => Crc16Row9();
    case 10 => Crc16Row10();
    case 11 => Crc16Row11();
    case 12 => Crc16Row12();
    case 13 => Crc16Row13();
    case 14 => Crc16Row14();
    case 15 => Crc16Row15();
  }

  lemma Crc16Basis() ensures Basis(Crc16Column(), Crc16Row(0), 0xA001) {}

  function Crc16Table(): (t: seq<Word>)
    ensures |t| == 256
  {
    seq(256, i requires 0 <= i < 256 => FromBv(Crc16Row(i / 16)[i % 16]))
  }

  lemma Crc16Entry(x: Octet)
    ensures Crc16Table()[Value(x)] == ReflSteps(x, FromBv(0xA001), 8)
  {
    hide ReflSteps, FromBv, ShiftRight, Low, Nibble, Basis, LinearRow, ShiftedRow, Crc16Row, Crc16Column;
    var h, l := Nibble(ShiftRight(x, 4)), Nibble(Low(x, 4));
    assert Value(x) / 16 == h && Value(x) % 16 == l;
    Crc16Basis();
    Crc16Row0();
    Crc16ColumnLinear();
    Crc16Shifted(h);
    ByteEntry(Crc16Row(h), Crc16Row(0), Crc16Column(), x, 0xA001);
  }

  lemma Crc16PolyDigits()
    ensures NibblePositions(0x8005, 0) == {0, 2}
    ensures NibblePositions(0x800, 4) == {}
    ensures NibblePositions(0x80, 8) == {}
    ensures NibblePositions(0x8, 12) == {15}
    ensures NibblePositions(0x0, 16) == {}
    ensures NibblePositions(0x0, 20) == {}
    ensures NibblePositions(0x0, 24) == {}
    ensures NibblePositions(0x0, 28) == {}
  {
  }

  lemma Crc16PolyHigh()
    ensures Positions(0x0, 16, 16) == {}
  {
    assert Positions(0, 0, 32) == {};
    hide Positions, NibblePositions;
    FourDigits(0x0, 0x0, 0x0, 0x0, 0, 16, 16);
    Crc16PolyDigits();
    var none: set<nat> := {};
    assert none + none == none;
    assert none + none == none;
    assert none + none == none;
    assert none + none == none;
  }

  lemma Crc16PolyPositions()
    ensures FromBv(0x8005) == {0, 2, 15}
  {
    hide Positions, NibblePositions, FromBv, BvBit;
    FourDigits(0x8005, 0x800, 0x80, 0x8, 0x0, 32, 0);
    FromBvPositions(0x8005);
    Crc16PolyDigits();
    Crc16PolyHigh();
    var none: set<nat> := {};
    assert {15} + none == {15};
    assert none + {15} == {15};
    assert none + {15} == {15};
    assert {0, 2} + {15} == {0, 2, 15};
  }

  lemma Crc16MirrorDigits()
    ensures NibblePositions(0xA001, 0) == {0}
    ensures NibblePositions(0xA00, 4) == {}
    ensures NibblePositions(0xA0, 8) == {}
    ensures NibblePositions(0xA, 12) == {13, 15}
    ensures NibblePositions(0x0, 16) == {}
    ensures NibblePositions(0x0, 20) == {}
    ensures NibblePositions(0x0, 24) == {}
    ensures NibblePositions(0x0, 28) == {}
  {
  }

  lemma Crc16MirrorHigh()
    ensures Positions(0x0, 16, 16) == {}
  {
    assert Positions(0, 0, 32) == {};
    hide Positions, NibblePositions;
    FourDigits(0x0, 0x0, 0x0, 0x0, 0, 16, 16);
    Crc16MirrorDigits();
    var none: set<nat> := {};
    assert none + none == none;
    assert none + none == none;
    assert none + none == none;
    assert none + none == none;
  }

  lemma Crc16MirrorPositions()
    ensures FromBv(0xA001) == {0, 13, 15}
  {
    hide Positions, NibblePositions, FromBv, BvBit;
    FourDigits(0xA001, 0xA00, 0xA0, 0xA, 0x0, 32, 0);
    FromBvPositions(0xA001);
    Crc16MirrorDigits();
    Crc16MirrorHigh();
    var none: set<nat> := {};
    assert {13, 15} + none == {13, 15};
    assert none + {13, 15} == {13, 15};
    assert none + {13, 15} == {13, 15};
    assert {0} + {13, 15} == {0, 13, 15};
  }

  /** The configuration `crcsw_crc16_config`. */
  function Crc16Config(): (cfg: Config)
    ensures cfg.Valid()
  {
    Config(16, FromBv(0x8005), {}, {}, true, true, Some(Crc16Table()))
  }

  lemma Crc16Mirrored()
    ensures Mirrored(Crc16Config())
  {
    hide FromBv, Crc16Table, ReflSteps, Reflected, Value;
    Crc16Reflects();
    ReflectsCrc16Initial();
    forall x: Octet ensures Crc16Table()[Value(x)] == ReflSteps(x, FromBv(0xA001), 8) {
      Crc16Entry(x);
    }
  }

  lemma ReflectsCrc16Initial()
    ensures Reflected({}, 16) == {}
  {
    forall e: nat ensures e in Reflected({}, 16) <==> e in {} {
    }
  }

  lemma Crc16Reflects()
    ensures Reflected(FromBv(0x8005), 16) == FromBv(0xA001)
  {
    hide FromBv;
    Crc16PolyPositions();
    Crc16MirrorPositions();
  }

  /** Table path and programmable path return the same CRC of every byte sequence. */
  lemma Crc16Agrees(s: seq<Octet>)
    ensures Crc(s, Crc16Config()) == Crc(s, Crc16Config().(table := None))
  {
    hide Crc16Config, Mirrored, Crc;
    Crc16Mirrored();
    TablePathAgrees(s, Crc16Config());
  }
}
