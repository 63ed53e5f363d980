/** Remainders of polynomials over GF(2) by a generator of degree 16.

    A `Word` is a polynomial of degree below 16 (bit i is the coefficient of x^i), a `Bits` a
    polynomial of any degree, highest coefficient first. The generator is x^16 + g. */
module Gf2 {

  type Word = bv16
  type Bits = seq<bool>

  /** Addition of polynomials. */
  function Plus(s: Word, t: Word): Word { s ^ t }

  /** x * s, without the coefficient that leaves the word. */
  function Shl(s: Word): Word { s << 1 }

  predicate Msb(s: Word) { s & 0x8000 != 0 }

  predicate Lsb(s: Word) { s & 1 != 0 }

  /** The multiple of g that x * s has to lose. */
  function Carry(g: Word, s: Word): Word { if Msb(s) then g else 0 }

  /** x * s modulo the generator. */
  function Mulx(g: Word, s: Word): Word { Plus(Shl(s), Carry(g, s)) }

  function Coeff(b: bool): Word { if b then 1 else 0 }

  function Top(b: bool): Word { if b then 0x8000 else 0 }

  /** Horner's rule: the remainder of r(x) * x^|bits| + bits(x). */
  function Residue(g: Word, r: Word, bits: Bits): Word
    decreases bits
  {
    if bits == [] then r else Residue(g, Plus(Mulx(g, r), Coeff(bits[0])), bits[1..])
  }

  function ZeroBits(n: nat): (z: Bits)
    ensures |z| == n && forall i | 0 <= i < n :: !z[i]
  {
    if n == 0 then [] else [false] + ZeroBits(n - 1)
  }

  /** The shift register of a CRC: one message bit enters at the top. */
  function Feed(g: Word, s: Word, b: bool): Word { Mulx(g, Plus(s, Top(b))) }

  function FeedAll(g: Word, s: Word, bits: Bits): Word
    decreases bits
  {
    if bits == [] then s else FeedAll(g, Feed(g, s, bits[0]), bits[1..])
  }

  /** x^n * s modulo the generator. */
  function MulxN(g: Word, s: Word, n: nat): Word
    decreases n
  {
    if n == 0 then s else MulxN(g, Mulx(g, s), n - 1)
  }

  // ---- words -------------------------------------------------------------------------------------

  lemma Assoc(a: Word, b: Word, c: Word)
    ensures Plus(Plus(a, b), c) == Plus(a, Plus(b, c))
  {}

  lemma Commute(a: Word, b: Word)
    ensures Plus(a, b) == Plus(b, a)
  {}

  lemma Swap4(a: Word, b: Word, c: Word, d: Word)
    ensures Plus(Plus(a, b), Plus(c, d)) == Plus(Plus(a, c), Plus(b, d))
  {
    Assoc(a, b, Plus(c, d));
    Assoc(b, c, d);
    Commute(b, c);
    Assoc(c, b, d);
    Assoc(a, c, Plus(b, d));
  }

  lemma Cancel(a: Word, b: Word)
    ensures Plus(a, Plus(a, b)) == b && Plus(Plus(b, a), a) == b
  {}

  lemma Unit(a: Word)
    ensures Plus(a, 0) == a && Plus(0, a) == a && Plus(a, a) == 0
  {}

  lemma ShiftLinear(s: Word, t: Word)
    ensures Shl(Plus(s, t)) == Plus(Shl(s), Shl(t))
  {}

  lemma TopLinear(s: Word, t: Word)
    ensures Msb(Plus(s, t)) <==> Msb(s) != Msb(t)
  {}

  lemma CarryLinear(g: Word, s: Word, t: Word)
    ensures Carry(g, Plus(s, t)) == Plus(Carry(g, s), Carry(g, t))
  {
    hide Plus, Msb;
    TopLinear(s, t);
    Unit(g);
    Unit(0);
  }

  lemma MulxOne(g: Word, s: Word)
    requires !Msb(s)
    ensures Mulx(g, s) == Shl(s)
  {
    Unit(Shl(s));
  }

  lemma MulxTop(g: Word)
    ensures Mulx(g, 0x8000) == g && Mulx(g, 0) == 0
  {
    Unit(g);
    Unit(0);
    assert Shl(0x8000) == 0 && Shl(0) == 0;
  }

  // ---- division ----------------------------------------------------------------------------------

  lemma MulxLinear(g: Word, s: Word, t: Word)
    ensures Mulx(g, Plus(s, t)) == Plus(Mulx(g, s), Mulx(g, t))
  {
    hide Plus, Shl, Msb, Lsb;
    ShiftLinear(s, t);
    CarryLinear(g, s, t);
    Swap4(Shl(s), Shl(t), Carry(g, s), Carry(g, t));
  }

  lemma {:induction false} MulxNLinear(g: Word, s: Word, t: Word, n: nat)
    ensures MulxN(g, Plus(s, t), n) == Plus(MulxN(g, s, n), MulxN(g, t, n))
    decreases n
  {
    hide Plus, Shl, Msb, Lsb;
    if n > 0 {
      MulxLinear(g, s, t);
      MulxNLinear(g, Mulx(g, s), Mulx(g, t), n - 1);
    }
  }

  lemma {:induction false} MulxNCommutes(g: Word, s: Word, n: nat)
    ensures MulxN(g, Mulx(g, s), n) == Mulx(g, MulxN(g, s, n))
    decreases n
  {
    hide Plus, Shl, Msb, Lsb;
    if n > 0 { MulxNCommutes(g, Mulx(g, s), n - 1); }
  }

  lemma {:induction false} MulxNZero(g: Word, n: nat)
    ensures MulxN(g, 0, n) == 0
    decreases n
  {
    hide Plus, Shl, Msb, Lsb;
    if n > 0 {
      MulxTop(g);
      MulxNZero(g, n - 1);
    }
  }

  lemma MulxNStep(g: Word, s: Word, n: nat)
    requires n > 0 && !Msb(s)
    ensures MulxN(g, s, n) == MulxN(g, Shl(s), n - 1)
  {
    MulxOne(g, s);
  }

  /** x^16 is congruent to g. */
  lemma XToThe16(g: Word)
    ensures MulxN(g, 1, 16) == g
  {
    MulxNStep(g, 1, 16);
    MulxNStep(g, 2, 15);
    MulxNStep(g, 4, 14);
    MulxNStep(g, 8, 13);
    MulxNStep(g, 0x10, 12);
    MulxNStep(g, 0x20, 11);
    MulxNStep(g, 0x40, 10);
    MulxNStep(g, 0x80, 9);
    MulxNStep(g, 0x100, 8);
    MulxNStep(g, 0x200, 7);
    MulxNStep(g, 0x400, 6);
    MulxNStep(g, 0x800, 5);
    MulxNStep(g, 0x1000, 4);
    MulxNStep(g, 0x2000, 3);
    MulxNStep(g, 0x4000, 2);
    MulxTop(g);
    assert MulxN(g, 0x8000, 1) == MulxN(g, g, 0);
  }

  /** One step of the register, seen from the remainder: the new bit enters as a multiple of g. */
  lemma FeedIsMulx(g: Word, s: Word, b: bool)
    ensures Feed(g, s, b) == Plus(Mulx(g, s), if b then g else 0)
  {
    hide Plus, Shl, Msb, Lsb;
    MulxLinear(g, s, Top(b));
    MulxTop(g);
  }

  lemma {:induction false} FeedAllAugmented(g: Word, r: Word, bits: Bits)
    ensures FeedAll(g, MulxN(g, r, 16), bits) == MulxN(g, Residue(g, r, bits), 16)
    decreases bits
  {
    hide Plus, Shl, Msb, Lsb;
    if bits != [] {
      var s, b := MulxN(g, r, 16), bits[0];
      var r' := Plus(Mulx(g, r), Coeff(b));
      calc {
        MulxN(g, r', 16);
        { MulxNLinear(g, Mulx(g, r), Coeff(b), 16); MulxNCommutes(g, r, 16); }
        Plus(Mulx(g, s), MulxN(g, Coeff(b), 16));
        { XToThe16(g); MulxNZero(g, 16); }
        Plus(Mulx(g, s), if b then g else 0);
        { FeedIsMulx(g, s, b); }
        Feed(g, s, b);
      }
      FeedAllAugmented(g, r', bits[1..]);
    }
  }

  lemma {:induction false} ResidueConcat(g: Word, r: Word, a: Bits, b: Bits)
    ensures Residue(g, r, a + b) == Residue(g, Residue(g, r, a), b)
    decreases a
  {
    hide Plus, Shl, Msb, Lsb;
    if a == [] {
      assert a + b == b;
    } else {
      assert (a + b)[1..] == a[1..] + b;
      ResidueConcat(g, Plus(Mulx(g, r), Coeff(a[0])), a[1..], b);
    }
  }

  lemma {:induction false} ResidueZeros(g: Word, r: Word, n: nat)
    ensures Residue(g, r, ZeroBits(n)) == MulxN(g, r, n)
    decreases n
  {
    hide Plus, Shl, Msb, Lsb;
    if n > 0 {
      assert ZeroBits(n)[1..] == ZeroBits(n - 1);
      Unit(Mulx(g, r));
      ResidueZeros(g, Mulx(g, r), n - 1);
    }
  }

  lemma {:induction false} FeedAllLinear(g: Word, s: Word, t: Word, bits: Bits)
    ensures FeedAll(g, Plus(s, t), bits) == Plus(MulxN(g, s, |bits|), FeedAll(g, t, bits))
    decreases bits
  {
    hide Plus, Shl, Msb, Lsb;
    if bits != [] {
      var b := bits[0];
      Assoc(s, t, Top(b));
      MulxLinear(g, s, Plus(t, Top(b)));
      FeedAllLinear(g, Mulx(g, s), Feed(g, t, b), bits[1..]);
    }
  }

  /** Feeding a message to the register is polynomial division: started from `init`, the register ends
      as the remainder of init(x) * x^n + bits(x) * x^16, where n is the number of message bits. */
  lemma FeedAllIsDivision(g: Word, init: Word, bits: Bits)
    ensures FeedAll(g, init, bits)
         == Plus(Residue(g, init, ZeroBits(|bits|)), Residue(g, 0, bits + ZeroBits(16)))
  {
    hide Plus, Shl, Msb, Lsb;
    calc {
      FeedAll(g, init, bits);
      { Unit(init); FeedAllLinear(g, init, 0, bits); }
      Plus(MulxN(g, init, |bits|), FeedAll(g, 0, bits));
      { MulxNZero(g, 16); FeedAllAugmented(g, 0, bits); }
      Plus(MulxN(g, init, |bits|), MulxN(g, Residue(g, 0, bits), 16));
      { ResidueZeros(g, init, |bits|); ResidueZeros(g, Residue(g, 0, bits), 16); }
      Plus(Residue(g, init, ZeroBits(|bits|)), Residue(g, Residue(g, 0, bits), ZeroBits(16)));
      { ResidueConcat(g, 0, bits, ZeroBits(16)); }
      Plus(Residue(g, init, ZeroBits(|bits|)), Residue(g, 0, bits + ZeroBits(16)));
    }
  }

  lemma {:induction false} FeedAllConcat(g: Word, s: Word, a: Bits, b: Bits)
    ensures FeedAll(g, s, a + b) == FeedAll(g, FeedAll(g, s, a), b)
    decreases a
  {
    hide Plus, Shl, Msb, Lsb;
    if a == [] {
      assert a + b == b;
    } else {
      assert (a + b)[1..] == a[1..] + b;
      FeedAllConcat(g, Feed(g, s, a[0]), a[1..], b);
    }
  }

  // ---- bytes -------------------------------------------------------------------------------------

  lemma {:induction false} MulxNAdd(g: Word, s: Word, m: nat, n: nat)
    ensures MulxN(g, s, m + n) == MulxN(g, MulxN(g, s, m), n)
    decreases m
  {
    hide Plus, Shl, Msb, Lsb;
    if m > 0 { MulxNAdd(g, Mulx(g, s), m - 1, n); }
  }

  lemma ByteShift(v: Word)
    requires v < 0x100
    ensures !Msb(v) && !Msb(v << 1) && !Msb(v << 2) && !Msb(v << 3)
    ensures !Msb(v << 4) && !Msb(v << 5) && !Msb(v << 6) && !Msb(v << 7)
    ensures Shl(v) == v << 1 && Shl(v << 1) == v << 2 && Shl(v << 2) == v << 3
    ensures Shl(v << 3) == v << 4 && Shl(v << 4) == v << 5 && Shl(v << 5) == v << 6
    ensures Shl(v << 6) == v << 7 && Shl(v << 7) == v << 8
  {}

  lemma MulxNByte(g: Word, v: Word)
    requires v < 0x100
    ensures MulxN(g, v, 8) == v << 8
  {
    hide Plus, Shl, Msb, Mulx;
    ByteShift(v);
    MulxNStep(g, v, 8);
    MulxNStep(g, v << 1, 7);
    MulxNStep(g, v << 2, 6);
    MulxNStep(g, v << 3, 5);
    MulxNStep(g, v << 4, 4);
    MulxNStep(g, v << 5, 3);
    MulxNStep(g, v << 6, 2);
    MulxNStep(g, v << 7, 1);
  }

  /** Eight bits entered one by one act as one byte added at the top. */
  lemma FeedByte(g: Word, s: Word, w: Bits, v: Word)
    requires |w| == 8 && v < 0x100
    requires Residue(g, 0, w) == v
    ensures FeedAll(g, s, w) == MulxN(g, Plus(s, v << 8), 8)
  {
    hide Shl, Msb, Mulx;
    calc {
      FeedAll(g, s, w);
      { Unit(s); FeedAllLinear(g, s, 0, w); }
      Plus(MulxN(g, s, 8), FeedAll(g, 0, w));
      { MulxNZero(g, 16); FeedAllAugmented(g, 0, w); }
      Plus(MulxN(g, s, 8), MulxN(g, v, 16));
      { MulxNAdd(g, v, 8, 8); MulxNByte(g, v); }
      Plus(MulxN(g, s, 8), MulxN(g, v << 8, 8));
      { MulxNLinear(g, s, v << 8, 8); }
      MulxN(g, Plus(s, v << 8), 8);
    }
  }

  /** v is r with one more coefficient appended, and no reduction needed. */
  predicate Appends(r: Word, b: bool, v: Word) { !Msb(r) && Plus(Shl(r), Coeff(b)) == v }

  lemma ResidueStep(g: Word, r: Word, w: Bits, v: Word)
    requires w != [] && Appends(r, w[0], v)
    ensures Residue(g, r, w) == Residue(g, v, w[1..])
  {
    MulxOne(g, r);
  }

  /** The eight bits are those of the number v, highest first. */
  predicate Spells(w: Bits, v: Word)
    requires |w| == 8
  {
    && Appends(0, w[0], v >> 7) && Appends(v >> 7, w[1], v >> 6)
    && Appends(v >> 6, w[2], v >> 5) && Appends(v >> 5, w[3], v >> 4)
    && Appends(v >> 4, w[4], v >> 3) && Appends(v >> 3, w[5], v >> 2)
    && Appends(v >> 2, w[6], v >> 1) && Appends(v >> 1, w[7], v)
  }

  lemma ResidueOfByte(g: Word, w: Bits, v: Word)
    requires |w| == 8 && Spells(w, v)
    ensures Residue(g, 0, w) == v
  {
    hide Appends;
    ResidueStep(g, 0, w, v >> 7);
    ResidueStep(g, v >> 7, w[1..], v >> 6);
    ResidueStep(g, v >> 6, w[2..], v >> 5);
    ResidueStep(g, v >> 5, w[3..], v >> 4);
    ResidueStep(g, v >> 4, w[4..], v >> 3);
    ResidueStep(g, v >> 3, w[5..], v >> 2);
    ResidueStep(g, v >> 2, w[6..], v >> 1);
    ResidueStep(g, v >> 1, w[7..], v);
    assert w[1..][1..] == w[2..] && w[2..][1..] == w[3..] && w[3..][1..] == w[4..]
        && w[4..][1..] == w[5..] && w[5..][1..] == w[6..] && w[6..][1..] == w[7..]
        && w[7..][1..] == [];
  }

  // ---- bursts ------------------------------------------------------------------------------------

  lemma LowBit(s: Word, t: Word)
    ensures Lsb(Plus(Shl(s), t)) == Lsb(t)
  {}

  lemma ShiftInjective(s: Word, t: Word)
    requires Shl(s) == Shl(t)
    requires Msb(s) == Msb(t)
    ensures s == t
  {}

  /** The generator has a constant term, so x has an inverse modulo it. */
  lemma MulxInjective(g: Word, s: Word, t: Word)
    requires Lsb(g)
    requires Mulx(g, s) == Mulx(g, t)
    ensures s == t
  {
    LowBit(s, Carry(g, s));
    LowBit(t, Carry(g, t));
    assert !Lsb(0);
    Cancel(Carry(g, s), Shl(s));
    Cancel(Carry(g, t), Shl(t));
    ShiftInjective(s, t);
  }

  lemma {:induction false} FeedAllInjective(g: Word, s: Word, t: Word, bits: Bits)
    requires Lsb(g)
    requires FeedAll(g, s, bits) == FeedAll(g, t, bits)
    ensures s == t
    decreases bits
  {
    hide Plus, Shl, Msb, Lsb;
    if bits != [] {
      var b := Top(bits[0]);
      FeedAllInjective(g, Feed(g, s, bits[0]), Feed(g, t, bits[0]), bits[1..]);
      MulxInjective(g, Plus(s, b), Plus(t, b));
      Cancel(b, s);
      Cancel(b, t);
    }
  }

  lemma {:induction false} MulxNInjective(g: Word, s: Word, t: Word, n: nat)
    requires Lsb(g)
    requires MulxN(g, s, n) == MulxN(g, t, n)
    ensures s == t
    decreases n
  {
    hide Plus, Shl, Msb, Lsb;
    if n > 0 {
      MulxNInjective(g, Mulx(g, s), Mulx(g, t), n - 1);
      MulxInjective(g, s, t);
    }
  }

  /** The polynomials of degree below 16 - j: the j highest coefficients are zero. */
  predicate Clear(s: Word, j: nat)
    decreases j
  {
    j == 0 || (!Msb(s) && Clear(Shl(s), j - 1))
  }

  lemma {:induction false} ClearPlus(s: Word, t: Word, j: nat)
    requires Clear(s, j) && Clear(t, j)
    ensures Clear(Plus(s, t), j)
    decreases j
  {
    hide Plus, Shl, Msb, Lsb;
    if j > 0 {
      TopLinear(s, t);
      ShiftLinear(s, t);
      ClearPlus(Shl(s), Shl(t), j - 1);
    }
  }

  lemma {:induction false} ClearZero(j: nat)
    ensures Clear(0, j)
  {
    if j > 0 { ClearZero(j - 1); }
  }

  lemma ClearCoeff(b: bool, j: nat)
    requires j < 16
    ensures Clear(Coeff(b), j)
  {
    if !b {
      ClearZero(j);
    } else {
      ClearLess(1, j, 15);
      assert Clear(0x1000, 3);
      assert Clear(0x200, 6);
      assert Clear(0x40, 9);
      assert Clear(8, 12);
    }
  }

  lemma {:induction false} ClearLess(s: Word, i: nat, j: nat)
    requires i <= j
    ensures Clear(s, j) ==> Clear(s, i)
    decreases i
  {
    hide Plus, Shl, Msb, Lsb;
    if i > 0 { ClearLess(Shl(s), i - 1, j - 1); }
  }

  lemma CoeffLow(b: bool)
    ensures Lsb(Coeff(b)) == b
  {}

  lemma AppendInjective(r: Word, t: Word, a: bool, b: bool)
    requires !Msb(r) && !Msb(t)
    requires Plus(Shl(r), Coeff(a)) == Plus(Shl(t), Coeff(b))
    ensures r == t && a == b
  {
    hide Plus, Shl, Msb, Lsb, Coeff;
    LowBit(r, Coeff(a));
    LowBit(t, Coeff(b));
    CoeffLow(a);
    CoeffLow(b);
    Cancel(Coeff(a), Shl(r));
    Cancel(Coeff(b), Shl(t));
    ShiftInjective(r, t);
  }

  /** As long as nothing is reduced, Horner's rule forgets nothing. */
  lemma {:induction false} ShortInjective(g: Word, r: Word, t: Word, u: Bits, v: Bits)
    requires |u| == |v| <= 16
    requires Clear(r, |u|) && Clear(t, |v|)
    requires Residue(g, r, u) == Residue(g, t, v)
    ensures r == t && u == v
    decreases u
  {
    hide Plus, Shl, Msb, Lsb;
    if u != [] {
      var a, b := Coeff(u[0]), Coeff(v[0]);
      MulxOne(g, r);
      MulxOne(g, t);
      ClearCoeff(u[0], |u| - 1);
      ClearCoeff(v[0], |u| - 1);
      ClearPlus(Shl(r), a, |u| - 1);
      ClearPlus(Shl(t), b, |u| - 1);
      ShortInjective(g, Plus(Shl(r), a), Plus(Shl(t), b), u[1..], v[1..]);
      AppendInjective(r, t, u[0], v[0]);
      assert u == [u[0]] + u[1..] && v == [v[0]] + v[1..];
    }
  }

  lemma WindowInjective(g: Word, s: Word, u: Bits, v: Bits)
    requires Lsb(g)
    requires |u| == |v| <= 16
    requires FeedAll(g, s, u) == FeedAll(g, s, v)
    ensures u == v
  {
    hide Plus, Shl, Msb, Lsb;
    Unit(s);
    FeedAllLinear(g, s, 0, u);
    FeedAllLinear(g, s, 0, v);
    Cancel(MulxN(g, s, |u|), FeedAll(g, 0, u));
    Cancel(MulxN(g, s, |u|), FeedAll(g, 0, v));
    MulxNZero(g, 16);
    FeedAllAugmented(g, 0, u);
    FeedAllAugmented(g, 0, v);
    MulxNInjective(g, Residue(g, 0, u), Residue(g, 0, v), 16);
    ClearZero(|u|);
    ShortInjective(g, 0, 0, u, v);
  }

  /** Two messages of the same length that differ, and only inside one window of at most sixteen
      consecutive bits, never leave the register in the same state. */
  lemma BurstDetected(g: Word, s: Word, pre: Bits, u: Bits, v: Bits, post: Bits)
    requires Lsb(g)
    requires |u| == |v| <= 16 && u != v
    ensures FeedAll(g, s, pre + u + post) != FeedAll(g, s, pre + v + post)
  {
    hide Plus, Shl, Msb, Lsb;
    if FeedAll(g, s, pre + u + post) == FeedAll(g, s, pre + v + post) {
      var t := FeedAll(g, s, pre);
      FeedAllConcat(g, s, pre + u, post);
      FeedAllConcat(g, s, pre + v, post);
      FeedAllConcat(g, s, pre, u);
      FeedAllConcat(g, s, pre, v);
      FeedAllInjective(g, FeedAll(g, t, u), FeedAll(g, t, v), post);
      WindowInjective(g, t, u, v);
    }
  }
}
