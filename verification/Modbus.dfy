/** The Modbus CRC: generator x^16 + x^15 + x^2 + 1, reflected, register preset to all ones. Both ways of
    computing it, bit by bit (scripts/bms_ota.py) and by table (the TWS and GF protocols). */
module Modbus {
  import opened Bytes
  import opened Gf2
  import opened Wire

  const POLY: Word := 0x8005

  /** The definition of the CRC, section 6.2.2 of MODBUS over Serial Line V1.02: the remainder of the
      preset times x^n plus message(x) * x^16, bits taken least significant first, read backwards. */
  function Crc(data: seq<byte>): Word {
    Rev(Plus(Residue(POLY, 0xFFFF, ZeroBits(8 * |data|)),
             Residue(POLY, 0, BitsOf(LsbFirst, data) + ZeroBits(16))))
  }

  // ---- bit by bit --------------------------------------------------------------------------------

  /** modbus_crc16. */
  method ModbusCrc16(data: seq<byte>) returns (crc: Word)
    ensures crc == Crc(data)
  {
    hide Rev, Plus, FeedAll, BitsOfByte, Shift, Crc;
    crc := 0xFFFF;
    RegisterStart();
    for i := 0 to |data|
      invariant Rev(crc) == FeedAll(POLY, 0xFFFF, BitsOf(LsbFirst, data[..i]))
    {
      ghost var before := crc;
      crc := Plus(crc, data[i] as bv16);
      ghost var entered := crc;
      for k := 0 to 8
        invariant crc == ShiftN(entered, k)
      {
        ShiftIs(crc);
        if crc & 1 != 0 {
          crc := (crc >> 1) ^ 0xA001;
        } else {
          crc := crc >> 1;
        }
      }
      ByteFeeds(before, data[i]);
      RegisterGrows(data, i);
    }
    assert data[..|data|] == data;
    RegisterIsCrc(data, crc);
  }

  /** One bit out of the register. */
  function Shift(s: Word): Word {
    if Lsb(s) then (s >> 1) ^ 0xA001 else s >> 1
  }

  function ShiftN(s: Word, n: nat): Word
    decreases n
  {
    if n == 0 then s else Shift(ShiftN(s, n - 1))
  }

  lemma ShiftIs(s: Word)
    ensures Shift(s) == if s & 1 != 0 then (s >> 1) ^ 0xA001 else s >> 1
  {}

  lemma RevShr(s: Word)
    ensures Rev(s >> 1) == Shl(Rev(s)) && Lsb(s) == Msb(Rev(s))
  {}

  lemma RevLinear(s: Word, t: Word)
    ensures Rev(Plus(s, t)) == Plus(Rev(s), Rev(t))
  {}

  lemma RevRev(s: Word)
    ensures Rev(Rev(s)) == s
  {}

  lemma RevGenerator()
    ensures Rev(0xA001) == POLY && Rev(0) == 0 && Rev(0xFFFF) == 0xFFFF
  {}

  lemma ShiftIsPlus(s: Word)
    ensures Shift(s) == Plus(s >> 1, if Lsb(s) then 0xA001 else 0)
  {
    Unit(s >> 1);
  }

  /** Seen backwards, the register is multiplied by x. */
  lemma RevShift(s: Word)
    ensures Rev(Shift(s)) == Mulx(POLY, Rev(s))
  {
    hide Rev, Plus, Shl, Msb, Lsb, Shift;
    ShiftIsPlus(s);
    RevLinear(s >> 1, if Lsb(s) then 0xA001 else 0);
    RevShr(s);
    RevGenerator();
  }

  lemma {:induction false} RevShiftN(s: Word, n: nat)
    ensures Rev(ShiftN(s, n)) == MulxN(POLY, Rev(s), n)
    decreases n
  {
    hide Rev, Mulx, Shift;
    if n > 0 {
      RevShiftN(s, n - 1);
      RevShift(ShiftN(s, n - 1));
      MulxNSnoc(POLY, Rev(s), n - 1);
    }
  }

  lemma MulxNSnoc(g: Word, s: Word, n: nat)
    ensures MulxN(g, s, n + 1) == Mulx(g, MulxN(g, s, n))
  {
    MulxNCommutes(g, s, n);
  }

  lemma ByteBackwards(b: byte)
    ensures Rev(b as bv16) == Shl8(Value(LsbFirst, b))
  {}

  /** Entering a byte and shifting eight times feeds its bits to the reversed register. */
  lemma ByteFeeds(s: Word, b: byte)
    ensures Rev(ShiftN(Plus(s, b as bv16), 8)) == FeedAll(POLY, Rev(s), BitsOfByte(LsbFirst, b))
  {
    hide Rev, Plus, ShiftN, MulxN, FeedAll, BitsOfByte, Value, Shl8;
    RevShiftN(Plus(s, b as bv16), 8);
    RevLinear(s, b as bv16);
    ByteBackwards(b);
    ByteEnters(POLY, Rev(s), LsbFirst, b);
  }

  lemma RegisterStart()
    ensures Rev(0xFFFF) == FeedAll(POLY, 0xFFFF, BitsOf(LsbFirst, []))
  {
    hide Rev;
    RevGenerator();
  }

  lemma RegisterGrows(data: seq<byte>, i: nat)
    requires i < |data|
    ensures FeedAll(POLY, 0xFFFF, BitsOf(LsbFirst, data[..i + 1]))
         == FeedAll(POLY, FeedAll(POLY, 0xFFFF, BitsOf(LsbFirst, data[..i])), BitsOfByte(LsbFirst, data[i]))
  {
    hide BitsOfByte;
    BitsOfSnoc(LsbFirst, data, i);
    FeedAllConcat(POLY, 0xFFFF, BitsOf(LsbFirst, data[..i]), BitsOfByte(LsbFirst, data[i]));
  }

  lemma RegisterIsCrc(data: seq<byte>, crc: Word)
    ensures Rev(crc) == FeedAll(POLY, 0xFFFF, BitsOf(LsbFirst, data)) <==> crc == Crc(data)
  {
    hide Rev, Plus;
    FeedAllIsDivision(POLY, 0xFFFF, BitsOf(LsbFirst, data));
    RevRev(crc);
    RevRev(FeedAll(POLY, 0xFFFF, BitsOf(LsbFirst, data)));
  }

  /** One more byte: it enters the CRC, which is shifted eight times. */
  lemma CrcGrows(data: seq<byte>, b: byte)
    ensures Crc(data + [b]) == ShiftN(Plus(Crc(data), b as bv16), 8)
    ensures Crc([]) == 0xFFFF
  {
    hide Rev, Plus, FeedAll, Crc, ShiftN, BitsOfByte;
    RegisterIsCrc(data, Crc(data));
    ByteFeeds(Crc(data), b);
    BitsOfConcat(LsbFirst, data, [b]);
    assert BitsOf(LsbFirst, [b]) == BitsOfByte(LsbFirst, b);
    FeedAllConcat(POLY, 0xFFFF, BitsOf(LsbFirst, data), BitsOfByte(LsbFirst, b));
    RegisterIsCrc(data + [b], ShiftN(Plus(Crc(data), b as bv16), 8));
    RegisterStart();
    RegisterIsCrc([], 0xFFFF);
  }

  /** The CRC after one more byte, when eight shifts are worked out. */
  lemma CrcNext(data: seq<byte>, b: byte, crc: Word, next: Word)
    requires Crc(data) == crc && Shift8(crc ^ (b as bv16)) == next
    ensures Crc(data + [b]) == next
  {
    hide Crc, Shift, ShiftN, Shift8;
    CrcGrows(data, b);
    Shift8Is(crc ^ (b as bv16));
  }

  // ---- by table ----------------------------------------------------------------------------------

  /** The 256 entries that go to the low byte of the register, in rows of sixteen. */
  const AUC_CRC_HI: seq<seq<byte>> := [
    [0x00, 0xC1, 0x81, 0x40, 0x01, 0xC0, 0x80, 0x41, 0x01, 0xC0, 0x80, 0x41, 0x00, 0xC1, 0x81, 0x40],
    [0x01, 0xC0, 0x80, 0x41, 0x00, 0xC1, 0x81, 0x40, 0x00, 0xC1, 0x81, 0x40, 0x01, 0xC0, 0x80, 0x41],
    [0x01, 0xC0, 0x80, 0x41, 0x00, 0xC1, 0x81, 0x40, 0x00, 0xC1, 0x81, 0x40, 0x01, 0xC0, 0x80, 0x41],
    [0x00, 0xC1, 0x81, 0x40, 0x01, 0xC0, 0x80, 0x41, 0x01, 0xC0, 0x80, 0x41, 0x00, 0xC1, 0x81, 0x40],
    [0x01, 0xC0, 0x80, 0x41, 0x00, 0xC1, 0x81, 0x40, 0x00, 0xC1, 0x81, 0x40, 0x01, 0xC0, 0x80, 0x41],
    [0x00, 0xC1, 0x81, 0x40, 0x01, 0xC0, 0x80, 0x41, 0x01, 0xC0, 0x80, 0x41, 0x00, 0xC1, 0x81, 0x40],
    [0x00, 0xC1, 0x81, 0x40, 0x01, 0xC0, 0x80, 0x41, 0x01, 0xC0, 0x80, 0x41, 0x00, 0xC1, 0x81, 0x40],
    [0x01, 0xC0, 0x80, 0x41, 0x00, 0xC1, 0x81, 0x40, 0x00, 0xC1, 0x81, 0x40, 0x01, 0xC0, 0x80, 0x41],
    [0x01, 0xC0, 0x80, 0x41, 0x00, 0xC1, 0x81, 0x40, 0x00, 0xC1, 0x81, 0x40, 0x01, 0xC0, 0x80, 0x41],
    [0x00, 0xC1, 0x81, 0x40, 0x01, 0xC0, 0x80, 0x41, 0x01, 0xC0, 0x80, 0x41, 0x00, 0xC1, 0x81, 0x40],
    [0x00, 0xC1, 0x81, 0x40, 0x01, 0xC0, 0x80, 0x41, 0x01, 0xC0, 0x80, 0x41, 0x00, 0xC1, 0x81, 0x40],
    [0x01, 0xC0, 0x80, 0x41, 0x00, 0xC1, 0x81, 0x40, 0x00, 0xC1, 0x81, 0x40, 0x01, 0xC0, 0x80, 0x41],
    [0x00, 0xC1, 0x81, 0x40, 0x01, 0xC0, 0x80, 0x41, 0x01, 0xC0, 0x80, 0x41, 0x00, 0xC1, 0x81, 0x40],
    [0x01, 0xC0, 0x80, 0x41, 0x00, 0xC1, 0x81, 0x40, 0x00, 0xC1, 0x81, 0x40, 0x01, 0xC0, 0x80, 0x41],
    [0x01, 0xC0, 0x80, 0x41, 0x00, 0xC1, 0x81, 0x40, 0x00, 0xC1, 0x81, 0x40, 0x01, 0xC0, 0x80, 0x41],
    [0x00, 0xC1, 0x81, 0x40, 0x01, 0xC0, 0x80, 0x41, 0x01, 0xC0, 0x80, 0x41, 0x00, 0xC1, 0x81, 0x40]
  ]

  /** The 256 entries that go to the high byte of the register. */
  const AUC_CRC_LO: seq<seq<byte>> := [
    [0x00, 0xC0, 0xC1, 0x01, 0xC3, 0x03, 0x02, 0xC2, 0xC6, 0x06, 0x07, 0xC7, 0x05, 0xC5, 0xC4, 0x04],
    [0xCC, 0x0C, 0x0D, 0xCD, 0x0F, 0xCF, 0xCE, 0x0E, 0x0A, 0xCA, 0xCB, 0x0B, 0xC9, 0x09, 0x08, 0xC8],
    [0xD8, 0x18, 0x19, 0xD9, 0x1B, 0xDB, 0xDA, 0x1A, 0x1E, 0xDE, 0xDF, 0x1F, 0xDD, 0x1D, 0x1C, 0xDC],
    [0x14, 0xD4, 0xD5, 0x15, 0xD7, 0x17, 0x16, 0xD6, 0xD2, 0x12, 0x13, 0xD3, 0x11, 0xD1, 0xD0, 0x10],
    [0xF0, 0x30, 0x31, 0xF1, 0x33, 0xF3, 0xF2, 0x32, 0x36, 0xF6, 0xF7, 0x37, 0xF5, 0x35, 0x34, 0xF4],
    [0x3C, 0xFC, 0xFD, 0x3D, 0xFF, 0x3F, 0x3E, 0xFE, 0xFA, 0x3A, 0x3B, 0xFB, 0x39, 0xF9, 0xF8, 0x38],
    [0x28, 0xE8, 0xE9, 0x29, 0xEB, 0x2B, 0x2A, 0xEA, 0xEE, 0x2E, 0x2F, 0xEF, 0x2D, 0xED, 0xEC, 0x2C],
    [0xE4, 0x24, 0x25, 0xE5, 0x27, 0xE7, 0xE6, 0x26, 0x22, 0xE2, 0xE3, 0x23, 0xE1, 0x21, 0x20, 0xE0],
    [0xA0, 0x60, 0x61, 0xA1, 0x63, 0xA3, 0xA2, 0x62, 0x66, 0xA6, 0xA7, 0x67, 0xA5, 0x65, 0x64, 0xA4],
    [0x6C, 0xAC, 0xAD, 0x6D, 0xAF, 0x6F, 0x6E, 0xAE, 0xAA, 0x6A, 0x6B, 0xAB, 0x69, 0xA9, 0xA8, 0x68],
    [0x78, 0xB8, 0xB9, 0x79, 0xBB, 0x7B, 0x7A, 0xBA, 0xBE, 0x7E, 0x7F, 0xBF, 0x7D, 0xBD, 0xBC, 0x7C],
    [0xB4, 0x74, 0x75, 0xB5, 0x77, 0xB7, 0xB6, 0x76, 0x72, 0xB2, 0xB3, 0x73, 0xB1, 0x71, 0x70, 0xB0],
    [0x50, 0x90, 0x91, 0x51, 0x93, 0x53, 0x52, 0x92, 0x96, 0x56, 0x57, 0x97, 0x55, 0x95, 0x94, 0x54],
    [0x9C, 0x5C, 0x5D, 0x9D, 0x5F, 0x9F, 0x9E, 0x5E, 0x5A, 0x9A, 0x9B, 0x5B, 0x99, 0x59, 0x58, 0x98],
    [0x88, 0x48, 0x49, 0x89, 0x4B, 0x8B, 0x8A, 0x4A, 0x4E, 0x8E, 0x8F, 0x4F, 0x8D, 0x4D, 0x4C, 0x8C],
    [0x44, 0x84, 0x85, 0x45, 0x87, 0x47, 0x46, 0x86, 0x82, 0x42, 0x43, 0x83, 0x41, 0x81, 0x80, 0x40]
  ]

  predicate IsTable(t: seq<seq<byte>>) { |t| == 16 && forall r | 0 <= r < 16 :: |t[r]| == 16 }

  lemma TablesAreTables()
    ensures IsTable(AUC_CRC_HI) && IsTable(AUC_CRC_LO)
  {}

  function Entry(t: seq<seq<byte>>, i: byte): byte
    requires IsTable(t)
  {
    assert (i >> 4) < 16 && (i & 15) < 16;
    t[(i >> 4) as int][(i & 15) as int]
  }

  function Xor8(a: byte, b: byte): byte { a ^ b }

  function Shift8(s: Word): Word { Shift(Shift(Shift(Shift(Shift(Shift(Shift(Shift(s)))))))) }

  /** The row read for index i, one half of the table at a time. */
  lemma RowEntries(i: byte, r: nat, upper: bool)
    requires r < 16 && (i >> 4) as int == r && upper == (r >= 8)
    ensures IsTable(AUC_CRC_HI) && IsTable(AUC_CRC_LO)
    ensures Join(Entry(AUC_CRC_LO, i), Entry(AUC_CRC_HI, i)) == Shift8(i as bv16)
  {
    TablesAreTables();
    if upper {
      var lo, hi := AUC_CRC_LO[r], AUC_CRC_HI[r];
    } else {
      var lo, hi := AUC_CRC_LO[r], AUC_CRC_HI[r];
    }
  }

  /** Every entry is the index shifted through the register. */
  lemma TableEntry(i: byte)
    ensures IsTable(AUC_CRC_HI) && IsTable(AUC_CRC_LO)
    ensures Join(Entry(AUC_CRC_LO, i), Entry(AUC_CRC_HI, i)) == ShiftN(i as bv16, 8)
  {
    hide Shift, Join, Entry, IsTable;
    assert (i >> 4) < 16;
    RowEntries(i, (i >> 4) as int, (i >> 4) as int >= 8);
    Shift8Is(i as bv16);
  }

  lemma Shift8Is(s: Word)
    ensures Shift8(s) == ShiftN(s, 8)
  {
    hide Shift;
    assert ShiftN(s, 0) == s;
    assert ShiftN(s, 2) == Shift(Shift(ShiftN(s, 0)));
    assert ShiftN(s, 4) == Shift(Shift(ShiftN(s, 2)));
    assert ShiftN(s, 6) == Shift(Shift(ShiftN(s, 4)));
    assert ShiftN(s, 8) == Shift(Shift(ShiftN(s, 6)));
  }

  lemma ShiftNLinear(s: Word, t: Word, n: nat)
    ensures ShiftN(Plus(s, t), n) == Plus(ShiftN(s, n), ShiftN(t, n))
  {
    hide Rev, Plus, ShiftN, MulxN, Mulx;
    RevShiftN(Plus(s, t), n);
    RevShiftN(s, n);
    RevShiftN(t, n);
    RevLinear(s, t);
    MulxNLinear(POLY, Rev(s), Rev(t), n);
    RevLinear(ShiftN(s, n), ShiftN(t, n));
    RevRev(ShiftN(Plus(s, t), n));
    RevRev(Plus(ShiftN(s, n), ShiftN(t, n)));
  }

  lemma HighByteBackwards(hi: byte)
    ensures Rev(Shl8(hi as bv16)) == Value(LsbFirst, hi)
  {}

  lemma HighByteShifts(hi: byte)
    ensures ShiftN(Shl8(hi as bv16), 8) == hi as bv16
  {
    hide Rev, Shl8, Value, ShiftN, Mulx, MulxN;
    RevShiftN(Shl8(hi as bv16), 8);
    HighByteBackwards(hi);
    ValueBound(LsbFirst, hi);
    MulxNByte(POLY, Value(LsbFirst, hi));
    Shl8Is(Value(LsbFirst, hi));
    ByteBackwards(hi);
    RevRev(ShiftN(Shl8(hi as bv16), 8));
    RevRev(hi as bv16);
  }

  lemma JoinSplits(hi: byte, lo: byte, b: byte)
    ensures Plus(Join(hi, lo), b as bv16) == Plus(Shl8(hi as bv16), Xor8(lo, b) as bv16)
  {}

  lemma JoinPlus(hi: byte, lo: byte, x: byte)
    ensures Join(hi, Xor8(x, lo)) == Plus(x as bv16, Join(hi, lo))
  {}

  /** One turn of the table loop does what entering the byte and shifting eight times does. */
  lemma TableTurn(hi: byte, lo: byte, b: byte)
    ensures IsTable(AUC_CRC_HI) && IsTable(AUC_CRC_LO)
    ensures Join(Entry(AUC_CRC_LO, Xor8(lo, b)), Xor8(hi, Entry(AUC_CRC_HI, Xor8(lo, b))))
         == ShiftN(Plus(Join(hi, lo), b as bv16), 8)
  {
    hide Plus, Join, ShiftN, Shl8, Entry, IsTable, Xor8;
    var i := Xor8(lo, b);
    TableEntry(i);
    JoinSplits(hi, lo, b);
    ShiftNLinear(Shl8(hi as bv16), i as bv16, 8);
    HighByteShifts(hi);
    JoinPlus(Entry(AUC_CRC_LO, i), Entry(AUC_CRC_HI, i), hi);
  }

  lemma JoinStart()
    ensures Join(0xFF, 0xFF) == 0xFFFF
  {}

  /** calculate_crc, the same code in the TWS and in the GF protocol. */
  method CalculateCrc(data: seq<byte>) returns (crc: Word)
    ensures crc == Crc(data)
  {
    hide Rev, Plus, FeedAll, BitsOfByte, ShiftN, Crc, Join, Entry, IsTable, Xor8;
    TablesAreTables();
    var ucCrcHi: byte, ucCrcLo: byte := 0xFF, 0xFF;
    RegisterStart();
    JoinStart();
    for i := 0 to |data|
      invariant Rev(Join(ucCrcHi, ucCrcLo)) == FeedAll(POLY, 0xFFFF, BitsOf(LsbFirst, data[..i]))
    {
      TableTurn(ucCrcHi, ucCrcLo, data[i]);
      ByteFeeds(Join(ucCrcHi, ucCrcLo), data[i]);
      RegisterGrows(data, i);
      var index := Xor8(ucCrcLo, data[i]);
      ucCrcLo := Xor8(ucCrcHi, Entry(AUC_CRC_HI, index));
      ucCrcHi := Entry(AUC_CRC_LO, index);
    }
    assert data[..|data|] == data;
    crc := Join(ucCrcHi, ucCrcLo);
    RegisterIsCrc(data, crc);
  }

  // ---- error detection ---------------------------------------------------------------------------

  /** The CRC as the two bytes that follow a message on the wire, low byte first. */
  function WireBytes(crc: Word): (w: seq<byte>)
    ensures |w| == 2
  {
    [LoByte(crc), HiByte(crc)]
  }

  /** The receiver's comparison. */
  predicate Checks(data: seq<byte>, lo: byte, hi: byte) { Crc(data) == Join(hi, lo) }

  lemma ChecksIff(data: seq<byte>, lo: byte, hi: byte)
    ensures Checks(data, lo, hi) <==> [lo, hi] == WireBytes(Crc(data))
  {
    hide Crc, Join, LoByte, HiByte;
    var w := WireBytes(Crc(data));
    Halves(Crc(data), hi, lo);
    assert [lo, hi] == w <==> lo == w[0] && hi == w[1];
  }

  lemma JoinBackwards(hi: byte, lo: byte)
    ensures Rev(Join(hi, lo)) == Plus(Shl8(Value(LsbFirst, lo)), Value(LsbFirst, hi))
  {}

  /** A message followed by two bytes has CRC zero exactly when they are its CRC. */
  lemma ResidueZeroIffChecks(data: seq<byte>, lo: byte, hi: byte)
    ensures Crc(data + [lo, hi]) == 0 <==> Checks(data, lo, hi)
    ensures Checks(data, lo, hi) <==> [lo, hi] == WireBytes(Crc(data))
  {
    hide Crc, FeedAll, Plus, Shl8, WireBytes, Rev, Join, Value;
    var s := FeedAll(POLY, 0xFFFF, BitsOf(LsbFirst, data));
    BitsOfConcat(LsbFirst, data, [lo, hi]);
    FeedAllConcat(POLY, 0xFFFF, BitsOf(LsbFirst, data), BitsOf(LsbFirst, [lo, hi]));
    TwoBytesClear(POLY, s, LsbFirst, lo, hi);
    RegisterIsCrc(data + [lo, hi], 0);
    RevGenerator();
    JoinBackwards(hi, lo);
    RegisterIsCrc(data, Join(hi, lo));
    ChecksIff(data, lo, hi);
  }

  /** Of two messages that differ, and only within two adjacent bytes, at most one passes the check;
      the last two bytes of each are its received CRC. */
  lemma BurstIsDetected(pre: seq<byte>, u: seq<byte>, v: seq<byte>, post: seq<byte>)
    requires |u| == |v| <= 2 && u != v
    ensures Crc(pre + u + post) != 0 || Crc(pre + v + post) != 0
    ensures Crc(pre + u + post) != Crc(pre + v + post)
  {
    hide Crc, FeedAll, BitsOf, Rev;
    var a, b := pre + u + post, pre + v + post;
    TwoByteBurst(POLY, 0xFFFF, LsbFirst, pre, u, v, post);
    RegisterIsCrc(a, Crc(a));
    RegisterIsCrc(b, Crc(b));
  }
}
