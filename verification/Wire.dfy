/** Messages of bytes as polynomials, and what a CRC register tells about them. */
module Wire {
  import opened Bytes
  import opened Gf2

  /** Which bit of a byte comes first. */
  datatype Order = MsbFirst | LsbFirst

  function BitsOfByte(order: Order, b: byte): (w: Bits)
    ensures |w| == 8
  {
    match order
    case MsbFirst => [b & 0x80 != 0, b & 0x40 != 0, b & 0x20 != 0, b & 0x10 != 0,
                      b & 0x08 != 0, b & 0x04 != 0, b & 0x02 != 0, b & 0x01 != 0]
    case LsbFirst => [b & 0x01 != 0, b & 0x02 != 0, b & 0x04 != 0, b & 0x08 != 0,
                      b & 0x10 != 0, b & 0x20 != 0, b & 0x40 != 0, b & 0x80 != 0]
  }

  function BitsOf(order: Order, data: seq<byte>): (w: Bits)
    ensures |w| == 8 * |data|
  {
    if data == [] then [] else BitsOfByte(order, data[0]) + BitsOf(order, data[1..])
  }

  /** The byte read as a number in the given order. */
  function Value(order: Order, b: byte): Word {
    match order
    case MsbFirst => b as bv16
    case LsbFirst => Rev(b as bv16) >> 8
  }

  /** The sixteen coefficients in reverse. */
  function Rev(s: Word): Word {
    var a := ((s & 0x5555) << 1) | ((s >> 1) & 0x5555);
    var b := ((a & 0x3333) << 2) | ((a >> 2) & 0x3333);
    var c := ((b & 0x0F0F) << 4) | ((b >> 4) & 0x0F0F);
    (c << 8) | (c >> 8)
  }

  function Shl8(s: Word): Word { s << 8 }

  // A word and its two bytes.

  function Join(hi: byte, lo: byte): Word { ((hi as bv16) << 8) | (lo as bv16) }

  function HiByte(s: Word): byte { (s >> 8) as bv8 }

  function LoByte(s: Word): byte { (s & 0xFF) as bv8 }

  lemma Halves(s: Word, hi: byte, lo: byte)
    ensures s == Join(hi, lo) <==> hi == HiByte(s) && lo == LoByte(s)
  {
    HalvesOf(s, hi, lo);
  }

  lemma HalvesOf(s: Word, hi: byte, lo: byte)
    ensures s == ((hi as bv16) << 8) | (lo as bv16)
       <==> hi == (s >> 8) as bv8 && lo == (s & 0xFF) as bv8
  {}

  // ---- bytes and bits ----------------------------------------------------------------------------

  lemma {:induction false} BitsOfConcat(order: Order, a: seq<byte>, b: seq<byte>)
    ensures BitsOf(order, a + b) == BitsOf(order, a) + BitsOf(order, b)
    decreases a
  {
    hide BitsOfByte;
    if a == [] {
      assert a + b == b;
    } else {
      assert (a + b)[1..] == a[1..] + b;
      BitsOfConcat(order, a[1..], b);
      assert BitsOfByte(order, a[0]) + (BitsOf(order, a[1..]) + BitsOf(order, b))
          == BitsOf(order, a) + BitsOf(order, b);
    }
  }

  lemma BitsOfSnoc(order: Order, data: seq<byte>, i: nat)
    requires i < |data|
    ensures BitsOf(order, data[..i + 1]) == BitsOf(order, data[..i]) + BitsOfByte(order, data[i])
  {
    hide BitsOfByte;
    assert data[..i + 1] == data[..i] + [data[i]];
    BitsOfConcat(order, data[..i], [data[i]]);
    assert BitsOf(order, [data[i]]) == BitsOfByte(order, data[i]);
  }

  lemma ReversedByte(b: byte)
    ensures var v := Rev(b as bv16) >> 8;
      && v < 0x100 && v << 8 == Rev(b as bv16)
  {}

  lemma ValueBound(order: Order, b: byte)
    ensures Value(order, b) < 0x100
  {
    if order.LsbFirst? { ReversedByte(b); }
  }

  // The bits of a byte spell its value.

  lemma HighAppends(v: Word)
    requires v < 0x100
    ensures Appends(0, v & 0x80 != 0, v >> 7) && Appends(v >> 7, v & 0x40 != 0, v >> 6)
    ensures Appends(v >> 6, v & 0x20 != 0, v >> 5) && Appends(v >> 5, v & 0x10 != 0, v >> 4)
  {}

  lemma LowAppends(v: Word)
    requires v < 0x100
    ensures Appends(v >> 4, v & 0x08 != 0, v >> 3) && Appends(v >> 3, v & 0x04 != 0, v >> 2)
  {}

  lemma LastAppends(v: Word)
    requires v < 0x100
    ensures Appends(v >> 2, v & 0x02 != 0, v >> 1) && Appends(v >> 1, v & 0x01 != 0, v)
  {}

  /** The bits of v below 2^8, highest first. */
  predicate Masks(w: Bits, v: Word)
    requires |w| == 8
  {
    && w[0] == (v & 0x80 != 0) && w[1] == (v & 0x40 != 0) && w[2] == (v & 0x20 != 0) && w[3] == (v & 0x10 != 0)
    && w[4] == (v & 0x08 != 0) && w[5] == (v & 0x04 != 0) && w[6] == (v & 0x02 != 0) && w[7] == (v & 0x01 != 0)
  }

  lemma MsbMasks(b: byte)
    ensures Masks(BitsOfByte(MsbFirst, b), b as bv16)
  {}

  lemma LsbMasks(b: byte)
    ensures Masks(BitsOfByte(LsbFirst, b), Rev(b as bv16) >> 8)
  {}

  lemma MasksSpell(w: Bits, v: Word)
    requires |w| == 8 && v < 0x100 && Masks(w, v)
    ensures Spells(w, v)
  {
    hide Appends;
    HighAppends(v);
    LowAppends(v);
    LastAppends(v);
  }

  lemma BitsSpellValue(order: Order, b: byte)
    ensures Spells(BitsOfByte(order, b), Value(order, b))
  {
    hide BitsOfByte, Rev, Masks, Spells;
    ValueBound(order, b);
    match order {
      case MsbFirst => MsbMasks(b);
      case LsbFirst => LsbMasks(b);
    }
    MasksSpell(BitsOfByte(order, b), Value(order, b));
  }

  lemma ValueInjective(order: Order, a: byte, b: byte)
    requires Value(order, a) == Value(order, b)
    ensures a == b
  {
    match order {
      case MsbFirst => assert a as bv16 == b as bv16 ==> a == b;
      case LsbFirst => RevInjective(a, b);
    }
  }

  lemma RevInjective(a: byte, b: byte)
    requires Rev(a as bv16) >> 8 == Rev(b as bv16) >> 8
    ensures a == b
  {}

  lemma BitsOfByteInjective(order: Order, a: byte, b: byte)
    requires BitsOfByte(order, a) == BitsOfByte(order, b)
    ensures a == b
  {
    hide BitsOfByte, Value, Residue, Spells;
    BitsSpellValue(order, a);
    BitsSpellValue(order, b);
    ResidueOfByte(0, BitsOfByte(order, a), Value(order, a));
    ResidueOfByte(0, BitsOfByte(order, b), Value(order, b));
    ValueInjective(order, a, b);
  }

  lemma {:induction false} BitsOfInjective(order: Order, a: seq<byte>, b: seq<byte>)
    requires |a| == |b|
    requires BitsOf(order, a) == BitsOf(order, b)
    ensures a == b
    decreases a
  {
    hide BitsOfByte;
    if a != [] {
      var u, v := BitsOf(order, a), BitsOf(order, b);
      assert u[..8] == BitsOfByte(order, a[0]) && v[..8] == BitsOfByte(order, b[0]);
      assert u[8..] == BitsOf(order, a[1..]) && v[8..] == BitsOf(order, b[1..]);
      BitsOfByteInjective(order, a[0], b[0]);
      BitsOfInjective(order, a[1..], b[1..]);
      assert a == [a[0]] + a[1..] && b == [b[0]] + b[1..];
    }
  }

  lemma Shl8Is(s: Word)
    ensures Shl8(s) == s << 8
  {}

  /** The bits of a byte enter the register as its value, at the top. */
  lemma ByteEnters(g: Word, s: Word, order: Order, b: byte)
    ensures FeedAll(g, s, BitsOfByte(order, b)) == MulxN(g, Plus(s, Shl8(Value(order, b))), 8)
  {
    hide Plus, BitsOfByte, Value, Residue, FeedAll, MulxN, Shl8, Spells;
    BitsSpellValue(order, b);
    ResidueOfByte(g, BitsOfByte(order, b), Value(order, b));
    ValueBound(order, b);
    Shl8Is(Value(order, b));
    FeedByte(g, s, BitsOfByte(order, b), Value(order, b));
  }

  // ---- error detection ---------------------------------------------------------------------------

  /** Messages that differ, and only within two adjacent bytes, leave different registers. */
  lemma TwoByteBurst(g: Word, s: Word, order: Order, pre: seq<byte>, u: seq<byte>, v: seq<byte>,
                     post: seq<byte>)
    requires Lsb(g)
    requires |u| == |v| <= 2 && u != v
    ensures FeedAll(g, s, BitsOf(order, pre + u + post)) != FeedAll(g, s, BitsOf(order, pre + v + post))
  {
    hide Lsb, FeedAll, BitsOfByte;
    BitsOfConcat(order, pre + u, post);
    BitsOfConcat(order, pre, u);
    BitsOfConcat(order, pre + v, post);
    BitsOfConcat(order, pre, v);
    if BitsOf(order, u) == BitsOf(order, v) { BitsOfInjective(order, u, v); }
    BurstDetected(g, s, BitsOf(order, pre), BitsOf(order, u), BitsOf(order, v), BitsOf(order, post));
  }

  lemma TwoBytesEnter(g: Word, s: Word, order: Order, x: byte, y: byte)
    ensures FeedAll(g, s, BitsOf(order, [x, y]))
         == MulxN(g, Plus(MulxN(g, Plus(s, Shl8(Value(order, x))), 8), Shl8(Value(order, y))), 8)
  {
    hide Plus, BitsOfByte, Value, FeedAll, Shl8, MulxN;
    var u, v := BitsOfByte(order, x), BitsOfByte(order, y);
    assert BitsOf(order, [x, y]) == u + v by {
      assert [x, y][1..] == [y] && [y][1..] == [];
      assert BitsOf(order, [y]) == v + [];
    }
    FeedAllConcat(g, s, u, v);
    ByteEnters(g, s, order, x);
    ByteEnters(g, FeedAll(g, s, u), order, y);
  }

  /** Two more bytes clear the register exactly when they are the register itself. */
  lemma TwoBytesClear(g: Word, s: Word, order: Order, x: byte, y: byte)
    requires Lsb(g)
    ensures FeedAll(g, s, BitsOf(order, [x, y])) == 0
       <==> s == Plus(Shl8(Value(order, x)), Value(order, y))
  {
    hide Lsb, Plus, BitsOfByte, BitsOf, Value, FeedAll, Shl8, MulxN;
    var X, Y := Shl8(Value(order, x)), Value(order, y);
    var r := MulxN(g, Plus(s, X), 8);
    TwoBytesEnter(g, s, order, x, y);
    ClearsIff(g, Plus(r, Shl8(Y)));
    SumIsZero(r, Shl8(Y));
    ValueBound(order, y);
    MulxNByte(g, Y);
    Shl8Is(Y);
    if r == Shl8(Y) { MulxNInjective(g, Plus(s, X), Y, 8); }
    Cancel(X, s);
    Cancel(X, Y);
    Commute(X, Y);
  }

  lemma ClearsIff(g: Word, s: Word)
    requires Lsb(g)
    ensures MulxN(g, s, 8) == 0 <==> s == 0
  {
    hide Lsb;
    MulxNZero(g, 8);
    if MulxN(g, s, 8) == 0 { MulxNInjective(g, s, 0, 8); }
  }

  lemma SumIsZero(s: Word, t: Word)
    ensures Plus(s, t) == 0 <==> s == t
  {}
}
