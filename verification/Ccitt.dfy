/** The CRC of the SCUD485 frames: CRC-16/XMODEM, generator x^16 + x^12 + x^5 + 1. */
module Ccitt {
  import opened Bytes
  import opened Gf2
  import opened Wire

  const POLY: Word := 0x1021

  /** The definition of the CRC: the remainder of message(x) * x^16 by the generator. */
  function Crc(data: seq<byte>): Word {
    Residue(POLY, 0, BitsOf(MsbFirst, data) + ZeroBits(16))
  }

  // ---- the source's algorithm ---------------------------------------------------------------------

  /** crc16_ccitt. */
  method Crc16Ccitt(data: seq<byte>) returns (crc: Word)
    ensures crc == Crc(data)
  {
    hide Turn, Rotate, Enter, Mix1, Mix2, Mix3, FeedAll, BitsOfByte, Crc;
    crc := 0;
    RegisterStart();
    assert BitsOf(MsbFirst, data[..0]) == [];
    for i := 0 to |data|
      invariant crc == FeedAll(POLY, 0, BitsOf(MsbFirst, data[..i]))
    {
      TurnFeedsByte(crc, data[i]);
      BitsOfSnoc(MsbFirst, data, i);
      FeedAllConcat(POLY, 0, BitsOf(MsbFirst, data[..i]), BitsOfByte(MsbFirst, data[i]));
      TurnInSteps(crc, data[i]);
      crc := Rotate(crc);
      crc := Enter(crc, data[i]);
      crc := Mix1(crc);
      crc := Mix2(crc);
      crc := Mix3(crc);
    }
    assert data[..|data|] == data;
    RegisterIsCrc(data);
  }

  lemma RegisterStart()
    ensures FeedAll(POLY, 0, []) == 0
  {}

  // The five statements of the loop body, one function each.

  function Rotate(crc: Word): Word { (crc >> 8) | (crc << 8) }

  function Enter(crc: Word, b: byte): Word { crc ^ (b as bv16) }

  function Mix1(crc: Word): Word { crc ^ ((crc & 0xFF) >> 4) }

  function Mix2(crc: Word): Word { crc ^ ((crc << 8) << 4) }

  function Mix3(crc: Word): Word { crc ^ (((crc & 0xFF) << 4) << 1) }

  function Mix(crc: Word): Word { Mix3(Mix2(Mix1(crc))) }

  function Turn(crc: Word, b: byte): Word { Mix(Enter(Rotate(crc), b)) }

  lemma TurnInSteps(crc: Word, b: byte)
    ensures Mix3(Mix2(Mix1(Enter(Rotate(crc), b)))) == Turn(crc, b)
  {
    hide Rotate, Enter, Mix1, Mix2, Mix3;
  }

  /** The byte that is reduced in one turn, */
  function Leaving(crc: Word, b: byte): Word { (crc >> 8) ^ (b as bv16) }

  /** and its remainder. */
  function Spread(x: Word): Word {
    var y := x ^ (x >> 4);
    y ^ (y << 12) ^ (y << 5)
  }

  lemma EnterSplits(crc: Word, b: byte)
    ensures Enter(Rotate(crc), b) == Plus(Shl8(crc), Leaving(crc, b))
  {}

  lemma MixSplits(h: Word, x: Word)
    requires h & 0xFF == 0 && x < 0x100
    ensures Mix(Plus(h, x)) == Plus(h, Spread(x))
  {}

  lemma ByteWord(crc: Word, b: byte)
    ensures b as bv16 < 0x100 && Leaving(crc, b) < 0x100 && crc & 0xFF < 0x100
    ensures Shl8(crc) & 0xFF == 0 && Shl8(crc & 0xFF) == Shl8(crc)
    ensures Plus(crc, Shl8(b as bv16)) == Plus(crc & 0xFF, Shl8(Leaving(crc, b)))
  {}

  lemma EightSteps(x: Word)
    requires x < 0x100
    ensures MulxN(POLY, Shl8(x), 8) == Spread(x)
  {
    var s0 := Shl8(x);
    var s1 := Mulx(POLY, s0);
    var s2 := Mulx(POLY, s1);
    var s3 := Mulx(POLY, s2);
    var s4 := Mulx(POLY, s3);
    var s5 := Mulx(POLY, s4);
    var s6 := Mulx(POLY, s5);
    var s7 := Mulx(POLY, s6);
    assert Mulx(POLY, s7) == Spread(x);
    assert MulxN(POLY, s0, 8) == MulxN(POLY, s1, 7) == MulxN(POLY, s2, 6) == MulxN(POLY, s3, 5)
        == MulxN(POLY, s4, 4) == MulxN(POLY, s5, 3) == MulxN(POLY, s6, 2) == MulxN(POLY, s7, 1);
  }

  lemma TurnSplits(crc: Word, b: byte)
    ensures Turn(crc, b) == Plus(Shl8(crc), Spread(Leaving(crc, b)))
  {
    hide Mix, Spread, Plus, Shl8, Leaving, Enter, Rotate;
    ByteWord(crc, b);
    EnterSplits(crc, b);
    MixSplits(Shl8(crc), Leaving(crc, b));
  }

  lemma ByteAtTop(crc: Word, b: byte)
    ensures MulxN(POLY, Plus(crc, Shl8(b as bv16)), 8) == Plus(Shl8(crc), Spread(Leaving(crc, b)))
  {
    hide Plus, Spread, Mulx, MulxN, Leaving, Shl8;
    ByteWord(crc, b);
    MulxNLinear(POLY, crc & 0xFF, Shl8(Leaving(crc, b)), 8);
    MulxNByte(POLY, crc & 0xFF);
    Shl8Is(crc & 0xFF);
    EightSteps(Leaving(crc, b));
  }

  /** One turn of the loop feeds the eight bits of the byte to the register. */
  lemma TurnFeedsByte(crc: Word, b: byte)
    ensures Turn(crc, b) == FeedAll(POLY, crc, BitsOfByte(MsbFirst, b))
  {
    hide Plus, Turn, Spread, Mulx, MulxN, FeedAll, BitsOfByte, Shl8, Leaving;
    ByteEnters(POLY, crc, MsbFirst, b);
    ByteAtTop(crc, b);
    TurnSplits(crc, b);
  }

  lemma RegisterIsCrc(data: seq<byte>)
    ensures FeedAll(POLY, 0, BitsOf(MsbFirst, data)) == Crc(data)
  {
    hide Plus, Mulx;
    FeedAllIsDivision(POLY, 0, BitsOf(MsbFirst, data));
    ResidueZeros(POLY, 0, |BitsOf(MsbFirst, data)|);
    MulxNZero(POLY, |BitsOf(MsbFirst, data)|);
    Unit(Crc(data));
  }

  // ---- error detection ---------------------------------------------------------------------------

  /** The CRC as the two bytes that follow a message on the wire, high byte first. */
  function WireBytes(crc: Word): (w: seq<byte>)
    ensures |w| == 2
  {
    [HiByte(crc), LoByte(crc)]
  }

  /** The receiver's comparison. */
  predicate Checks(data: seq<byte>, hi: byte, lo: byte) { Crc(data) == Join(hi, lo) }

  lemma JoinedBytes(hi: byte, lo: byte)
    ensures Join(hi, lo) == Plus(Shl8(hi as bv16), lo as bv16)
  {}

  lemma ChecksIff(data: seq<byte>, hi: byte, lo: byte)
    ensures Checks(data, hi, lo) <==> [hi, lo] == WireBytes(Crc(data))
  {
    hide Crc, Join, LoByte, HiByte;
    var w := WireBytes(Crc(data));
    Halves(Crc(data), hi, lo);
    assert [hi, lo] == w <==> hi == w[0] && lo == w[1];
  }

  /** A message followed by two bytes has remainder zero exactly when they are its CRC. */
  lemma ResidueZeroIffChecks(data: seq<byte>, hi: byte, lo: byte)
    ensures Crc(data + [hi, lo]) == 0 <==> Checks(data, hi, lo)
    ensures Checks(data, hi, lo) <==> [hi, lo] == WireBytes(Crc(data))
  {
    hide Crc, FeedAll, Plus, Shl8, WireBytes, Join;
    RegisterIsCrc(data);
    RegisterIsCrc(data + [hi, lo]);
    BitsOfConcat(MsbFirst, data, [hi, lo]);
    FeedAllConcat(POLY, 0, BitsOf(MsbFirst, data), BitsOf(MsbFirst, [hi, lo]));
    TwoBytesClear(POLY, Crc(data), MsbFirst, hi, lo);
    ChecksIff(data, hi, lo);
    JoinedBytes(hi, lo);
  }

  /** Of two messages that differ, and only within two adjacent bytes, at most one passes the check;
      the last two bytes of each are its received CRC. */
  lemma BurstIsDetected(pre: seq<byte>, u: seq<byte>, v: seq<byte>, post: seq<byte>)
    requires |u| == |v| <= 2 && u != v
    ensures Crc(pre + u + post) != 0 || Crc(pre + v + post) != 0
    ensures Crc(pre + u + post) != Crc(pre + v + post)
  {
    hide Crc, FeedAll, BitsOf;
    RegisterIsCrc(pre + u + post);
    RegisterIsCrc(pre + v + post);
    TwoByteBurst(POLY, 0, MsbFirst, pre, u, v, post);
  }
}
