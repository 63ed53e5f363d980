/** Reading one Modbus response from the serial port: the same code in the TWS and the GF protocol. */
module ModbusReader {
  import opened Bytes
  import opened Wire
  import Modbus

  /** One poll: the bytes that are there to be read, or nothing (timeout, error, end of file). */
  datatype Poll = Data(bytes: seq<byte>) | Stall

  predicate Stalls(p: Poll) { p.Stall? || p.bytes == [] }

  /** What arrives before the first stall. */
  function Arrived(polls: seq<Poll>): seq<byte> {
    if polls == [] || Stalls(polls[0]) then [] else polls[0].bytes + Arrived(polls[1..])
  }

  /** A stream holds a good response of the expected size. */
  predicate Accepts(s: seq<byte>, expected: nat) {
    && 5 <= expected <= |s|
    && Modbus.Checks(s[..expected - 2], s[expected - 2], s[expected - 1])
    && s[1] & 0x80 == 0
  }

  /** The first bytes of the stream, and zeros where it stops short. */
  function Filled(s: seq<byte>, expected: nat): (b: seq<byte>)
    ensures |b| == expected
  {
    if |s| < expected then s + Zeroes(expected - |s|) else s[..expected]
  }

  class SerialLink {
    var isOpen: bool
    var polls: seq<Poll>

    constructor (polls: seq<Poll>)
      ensures isOpen && this.polls == polls
    {
      isOpen, this.polls := true, polls;
    }

    /** poll and read into the buffer from `at` on; what does not fit stays to be read. */
    method Read(buffer: array<byte>, at: nat) returns (n: nat)
      requires at < buffer.Length
      modifies this`polls, buffer
      ensures at + n <= buffer.Length
      ensures buffer[..at] == old(buffer[..at])
      ensures buffer[at + n..] == old(buffer[at + n..])
      ensures n == 0 ==> Arrived(old(polls)) == []
      ensures n > 0 ==> Arrived(old(polls)) == buffer[at..at + n] + Arrived(polls)
    {
      n := 0;
      if polls == [] || Stalls(polls[0]) { return; }
      var bytes := polls[0].bytes;
      var limit := buffer.Length - at;
      if |bytes| <= limit {
        polls := polls[1..];
      } else {
        TakeSome(bytes, limit, polls[1..]);
        polls := [Data(bytes[limit..])] + polls[1..];
        bytes := bytes[..limit];
      }
      assert Arrived(old(polls)) == bytes + Arrived(polls);
      n := |bytes|;
      CopyInto(bytes, buffer, at);
    }
  }

  lemma TakeSome(bytes: seq<byte>, limit: nat, rest: seq<Poll>)
    requires limit < |bytes|
    ensures Arrived([Data(bytes)] + rest) == bytes[..limit] + Arrived([Data(bytes[limit..])] + rest)
  {
    assert ([Data(bytes)] + rest)[1..] == rest;
    assert ([Data(bytes[limit..])] + rest)[1..] == rest;
    assert bytes == bytes[..limit] + bytes[limit..];
  }

  class ResponseReader {
    const link: SerialLink

    constructor (link: SerialLink)
      ensures this.link == link
    {
      this.link := link;
    }

    /** The reading loop of read_response. */
    method Fill(buffer: array<byte>) returns (total: nat)
      requires forall k | 0 <= k < buffer.Length :: buffer[k] == 0
      modifies link`polls, buffer
      ensures buffer[..] == Filled(Arrived(old(link.polls)), buffer.Length)
      ensures total == if |Arrived(old(link.polls))| < buffer.Length
                       then |Arrived(old(link.polls))| else buffer.Length
    {
      hide Arrived;
      ghost var s := Arrived(link.polls);
      total := 0;
      while total < buffer.Length
        invariant 0 <= total <= buffer.Length && total <= |s|
        invariant s == buffer[..total] + Arrived(link.polls)
        invariant forall k | total <= k < buffer.Length :: buffer[k] == 0
        decreases buffer.Length - total
      {
        ghost var before := buffer[..];
        var n := link.Read(buffer, total);
        assert buffer[..total + n] == before[..total] + buffer[total..total + n];
        forall k | total + n <= k < buffer.Length ensures buffer[k] == 0 {
          assert buffer[k] == buffer[total + n..][k - total - n] == before[total + n..][k - total - n];
        }
        if n == 0 { break; }
        total := total + n;
      }
      assert buffer[total..] == Zeroes(buffer.Length - total);
      assert buffer[..] == buffer[..total] + buffer[total..];
    }

    /** read_response. */
    method ReadResponse(expected: nat) returns (ok: bool, buffer: array<byte>)
      modifies link`polls
      ensures fresh(buffer)
      ensures !link.isOpen ==> !ok && link.polls == old(link.polls)
      ensures link.isOpen ==> ok == Accepts(Arrived(old(link.polls)), expected)
      ensures link.isOpen ==> buffer[..] == Filled(Arrived(old(link.polls)), expected)
    {
      hide Arrived, Modbus.Crc, Join;
      buffer := new byte[expected](_ => 0);
      if !link.isOpen { return false, buffer; }
      ghost var s := Arrived(link.polls);
      var total := Fill(buffer);
      assert buffer[..] == Filled(s, expected);
      assert total == expected ==> buffer[..] == s[..expected];
      if total < 5 { return false, buffer; }
      var received := Join(buffer[total - 1], buffer[total - 2]);
      var computed := Modbus.CalculateCrc(buffer[..total - 2]);
      assert total == expected ==> buffer[..total - 2] == s[..expected - 2];
      if received != computed { return false, buffer; }
      if buffer[1] & 0x80 != 0 { return false, buffer; }
      return total == expected, buffer;
    }
  }

  // ---- what is accepted ----------------------------------------------------------------------------

  /** However the stream is cut into reads, only its bytes count. */
  lemma {:induction false} ChunkingIsIrrelevant(chunks: seq<seq<byte>>, rest: seq<Poll>)
    requires forall i | 0 <= i < |chunks| :: chunks[i] != []
    requires rest == [] || Stalls(rest[0])
    ensures Arrived(seq(|chunks|, i requires 0 <= i < |chunks| => Data(chunks[i])) + rest) == Flatten(chunks)
  {
    var polls := seq(|chunks|, i requires 0 <= i < |chunks| => Data(chunks[i]));
    if chunks == [] {
      assert polls + rest == rest;
    } else {
      var t := chunks[1..];
      ChunkingIsIrrelevant(t, rest);
      assert (polls + rest)[1..] == seq(|t|, i requires 0 <= i < |t| => Data(t[i])) + rest;
    }
  }

  function Flatten(chunks: seq<seq<byte>>): seq<byte> {
    if chunks == [] then [] else chunks[0] + Flatten(chunks[1..])
  }

  /** Accepted is exactly a reply of five bytes or more that leaves residue zero and has the exception bit
      clear. */
  lemma AcceptsIff(s: seq<byte>, expected: nat)
    ensures Accepts(s, expected)
       <==> 5 <= expected <= |s| && Modbus.Crc(s[..expected]) == 0 && s[1] & 0x80 == 0
  {
    hide Modbus.Crc, Modbus.Checks;
    if 5 <= expected <= |s| {
      ChecksWhole(s[..expected]);
      assert s[..expected][..expected - 2] == s[..expected - 2];
    }
  }

  /** An exception reply (section 7 of MODBUS Application Protocol V1.1b3): function code with the high
      bit set, one exception code, CRC. Whatever follows it, it is not accepted. */
  lemma ExceptionIsRejected(addr: byte, fn: byte, code: byte, rest: seq<byte>, expected: nat)
    ensures !Accepts([addr, fn | 0x80, code] + rest, expected)
  {
    HighBitStays(fn);
    assert ([addr, fn | 0x80, code] + rest)[1] == fn | 0x80;
  }

  lemma HighBitStays(b: byte)
    ensures (b | 0x80) & 0x80 != 0
  {}

  /** A response of section 6.3 of MODBUS Application Protocol V1.1b3. */
  function RegisterResponse(addr: byte, regs: seq<nat>): (s: seq<byte>)
    requires |regs| <= 125
    requires AreWords(regs)
    ensures |s| == 2 * |regs| + 5
  {
    var body := [addr, 3, Byte(2 * |regs|)] + Words(regs);
    body + Modbus.WireBytes(Modbus.Crc(body))
  }

  /** get_u16_be of the GF protocol. */
  function RegisterAt(buffer: seq<byte>, i: nat): nat
    requires 2 * i + 4 < |buffer|
  {
    U16(buffer[2 * i + 3], buffer[2 * i + 4])
  }

  /** Any block of registers, encoded as a response, is accepted and decodes to itself. */
  lemma RegistersRoundTrip(addr: byte, regs: seq<nat>, rest: seq<byte>)
    requires |regs| <= 125
    requires AreWords(regs)
    ensures Accepts(RegisterResponse(addr, regs) + rest, 2 * |regs| + 5)
    ensures var buffer := Filled(RegisterResponse(addr, regs) + rest, 2 * |regs| + 5);
      buffer == RegisterResponse(addr, regs)
      && forall i | 0 <= i < |regs| :: RegisterAt(buffer, i) == regs[i]
  {
    hide Modbus.Crc, Modbus.WireBytes, Modbus.Checks, Words, U16, Byte;
    var body := [addr, 3, Byte(2 * |regs|)] + Words(regs);
    var w := Modbus.WireBytes(Modbus.Crc(body));
    var r, n := RegisterResponse(addr, regs), 2 * |regs| + 5;
    var s := r + rest;
    assert s[..n] == r && r[..n - 2] == body && s[..n - 2] == body;
    assert s[n - 2] == w[0] && s[n - 1] == w[1] && w == [w[0], w[1]];
    Modbus.ChecksIff(body, w[0], w[1]);
    assert s[1] == 3;
    FunctionCodeIsClear();
    forall i | 0 <= i < |regs| ensures RegisterAt(r, i) == regs[i] {
      WordsAt(regs, i);
      assert r[2 * i + 3] == Words(regs)[2 * i] && r[2 * i + 4] == Words(regs)[2 * i + 1];
    }
  }

  lemma FunctionCodeIsClear()
    ensures (3 as bv8) & 0x80 == 0
  {}

  /** A response damaged within two adjacent bytes is not accepted. */
  lemma DamagedIsRejected(pre: seq<byte>, u: seq<byte>, v: seq<byte>, post: seq<byte>)
    requires |u| == |v| <= 2 && u != v
    requires Accepts(pre + u + post, |pre + u + post|)
    ensures !Accepts(pre + v + post, |pre + v + post|)
  {
    hide Modbus.Crc, Modbus.Checks;
    ChecksWhole(pre + u + post);
    ChecksWhole(pre + v + post);
    Modbus.BurstIsDetected(pre, u, v, post);
  }

  lemma ChecksWhole(s: seq<byte>)
    requires |s| >= 5
    ensures Modbus.Checks(s[..|s| - 2], s[|s| - 2], s[|s| - 1]) <==> Modbus.Crc(s) == 0
  {
    hide Modbus.Crc, Modbus.Checks;
    var n := |s| - 2;
    Modbus.ResidueZeroIffChecks(s[..n], s[n], s[n + 1]);
    assert s[..n] + [s[n], s[n + 1]] == s;
  }
}
