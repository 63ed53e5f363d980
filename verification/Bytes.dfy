/** Bytes and the 16-bit words built from them. */
module Bytes {

  type byte = bv8

  /** The two bytes as an unsigned number, high byte first. */
  function U16(hi: byte, lo: byte): (n: nat)
    ensures n < 0x1_0000
  {
    ByteBound(hi);
    ByteBound(lo);
    0x100 * (hi as int) + (lo as int)
  }

  /** A number below 256 as a byte, counted up from zero. */
  function Byte(n: nat): byte
    requires n < 0x100
  {
    if n == 0 then 0 else Byte(n - 1) + 1
  }

  /** The two bytes of a number below 2^16, high byte first. */
  function BigEndian(n: nat): (s: seq<byte>)
    requires n < 0x1_0000
    ensures |s| == 2
  {
    [Byte(n / 0x100), Byte(n % 0x100)]
  }

  predicate AreWords(words: seq<nat>) { forall i | 0 <= i < |words| :: words[i] < 0x1_0000 }

  /** Numbers below 2^16, one after the other. */
  function Words(words: seq<nat>): (s: seq<byte>)
    requires AreWords(words)
    ensures |s| == 2 * |words|
  {
    if words == [] then [] else BigEndian(words[0]) + Words(words[1..])
  }

  lemma {:induction false} WordsAt(words: seq<nat>, i: nat)
    requires AreWords(words) && i < |words|
    ensures U16(Words(words)[2 * i], Words(words)[2 * i + 1]) == words[i]
    decreases words
  {
    hide U16, BigEndian;
    if i == 0 {
      DecodeEncode(words[0]);
    } else {
      WordsAt(words[1..], i - 1);
      var s, u := Words(words), Words(words[1..]);
      assert s[2 * i] == u[2 * (i - 1)] && s[2 * i + 1] == u[2 * (i - 1) + 1];
    }
  }

  function Zeroes(n: nat): (z: seq<byte>)
    ensures |z| == n && forall i | 0 <= i < n :: z[i] == 0
  {
    if n == 0 then [] else [0] + Zeroes(n - 1)
  }

  /** A part of a buffer is overwritten, the rest stays. */
  method CopyInto(bytes: seq<byte>, buffer: array<byte>, at: nat)
    requires at + |bytes| <= buffer.Length
    modifies buffer
    ensures buffer[..at] == old(buffer[..at])
    ensures buffer[at..at + |bytes|] == bytes
    ensures buffer[at + |bytes|..] == old(buffer[at + |bytes|..])
  {
    for i := 0 to |bytes|
      invariant buffer[..at] == old(buffer[..at])
      invariant buffer[at..at + i] == bytes[..i]
      invariant buffer[at + |bytes|..] == old(buffer[at + |bytes|..])
    {
      buffer[at + i] := bytes[i];
    }
  }

  lemma ByteBound(b: byte)
    ensures 0 <= b as int < 0x100
  {}

  lemma ByteNext(b: byte)
    requires b != 0xFF
    ensures (b + 1) as int == b as int + 1
  {}

  lemma {:induction false} ByteValue(n: nat)
    requires n < 0x100
    ensures Byte(n) as int == n
  {
    if n > 0 {
      ByteValue(n - 1);
      ByteNext(Byte(n - 1));
    }
  }

  lemma SameByte(x: byte, y: byte)
    requires x as int == y as int
    ensures x == y
  {
    ByteBound(x);
    ByteBound(y);
  }

  lemma ByteAgain(b: byte)
    ensures 0 <= b as int < 0x100 && Byte(b as int) == b
  {
    ByteBound(b);
    ByteValue(b as int);
    SameByte(Byte(b as int), b);
  }

  lemma EncodeDecode(hi: byte, lo: byte)
    ensures BigEndian(U16(hi, lo)) == [hi, lo]
  {
    hide Byte;
    ByteAgain(hi);
    ByteAgain(lo);
  }

  lemma DecodeEncode(n: nat)
    requires n < 0x1_0000
    ensures U16(BigEndian(n)[0], BigEndian(n)[1]) == n
  {
    ByteValue(n / 0x100);
    ByteValue(n % 0x100);
  }
}
