/** Response frames of the OTA bootloader, 01 45 | CMD | LEN_H LEN_L | payload | CRC_L CRC_H, and the parse
    of a stream into them. */
module OtaFrames {
  import opened Wrappers
  import opened Bytes
  import Modbus

  datatype Response = Response(cmd: byte, payload: seq<byte>)

  /** RESPONSE_PAYLOAD_LENGTHS. */
  predicate Known(cmd: byte, length: nat) {
    || (cmd == 0x11 && length == 2)
    || (cmd == 0x12 && length in {4, 7})
    || (cmd == 0x13 && length == 19)
  }

  function LengthAt(s: seq<byte>, i: nat): nat
    requires i + 5 <= |s|
  {
    U16(s[i + 3], s[i + 4])
  }

  predicate HeaderAt(s: seq<byte>, i: nat) {
    i + 5 <= |s| && s[i] == 0x01 && s[i + 1] == 0x45 && Known(s[i + 2], LengthAt(s, i))
  }

  /** A whole frame with a good CRC starts at i. */
  predicate FrameAt(s: seq<byte>, i: nat) {
    && HeaderAt(s, i)
    && var end := i + 7 + LengthAt(s, i);
      end <= |s| && Modbus.Checks(s[i..end - 2], s[end - 2], s[end - 1])
  }

  function EndOf(s: seq<byte>, i: nat): (end: nat)
    requires FrameAt(s, i)
    ensures i + 7 <= end <= |s|
  {
    i + 7 + LengthAt(s, i)
  }

  function ResponseAt(s: seq<byte>, i: nat): Response
    requires FrameAt(s, i)
  {
    Response(s[i + 2], s[i + 5..EndOf(s, i) - 2])
  }

  /** The leftmost frame. */
  function Leftmost(s: seq<byte>, from: nat): (r: Option<nat>)
    ensures r.Some? ==> from <= r.value && FrameAt(s, r.value)
    ensures forall i | from <= i && (r.Some? ==> i < r.value) :: !FrameAt(s, i)
    decreases |s| - from
  {
    if from >= |s| then None
    else if FrameAt(s, from) then Some(from)
    else Leftmost(s, from + 1)
  }

  /** The leftmost non-overlapping parse of a stream. */
  function Frames(s: seq<byte>): seq<Response>
    decreases |s|
  {
    match Leftmost(s, 0)
    case None => []
    case Some(i) => [ResponseAt(s, i)] + Frames(s[EndOf(s, i)..])
  }

  // ---- what a parser may drop ------------------------------------------------------------------------

  /** Position i starts no frame, and no bytes to come can make one start there. */
  predicate Dead(s: seq<byte>, i: nat) {
    i < |s| &&
    (|| s[i] != 0x01
     || (i + 1 < |s| && s[i + 1] != 0x45)
     || (i + 5 <= |s| && !Known(s[i + 2], LengthAt(s, i)))
     || (HeaderAt(s, i) && i + 7 + LengthAt(s, i) <= |s| && !FrameAt(s, i)))
  }

  lemma DeadStaysDead(s: seq<byte>, ext: seq<byte>, i: nat)
    requires Dead(s, i)
    ensures !FrameAt(s + ext, i)
  {
    hide Modbus.Checks;
    var w := s + ext;
    if i + 5 <= |s| {
      assert LengthAt(w, i) == LengthAt(s, i);
      var end := i + 7 + LengthAt(s, i);
      if end <= |s| { assert w[i..end - 2] == s[i..end - 2]; }
    }
  }

  lemma FrameAtShifts(s: seq<byte>, d: nat, i: nat)
    requires d <= |s|
    ensures FrameAt(s, d + i) == FrameAt(s[d..], i)
    ensures FrameAt(s, d + i) ==> EndOf(s, d + i) == d + EndOf(s[d..], i)
    ensures FrameAt(s, d + i) ==> ResponseAt(s, d + i) == ResponseAt(s[d..], i)
  {
    hide Modbus.Checks, U16, Known;
    var u := s[d..];
    if i + 5 <= |u| {
      var end := i + 7 + LengthAt(u, i);
      if end <= |u| {
        assert s[d + i..d + end - 2] == u[i..end - 2];
        assert s[d + i + 5..d + end - 2] == u[i + 5..end - 2];
      }
    }
  }

  lemma {:induction false} LeftmostShifts(s: seq<byte>, d: nat, from: nat)
    requires d <= |s|
    ensures Leftmost(s[d..], from).None? ==> Leftmost(s, d + from).None?
    ensures Leftmost(s[d..], from).Some? ==>
              Leftmost(s, d + from) == Some(d + Leftmost(s[d..], from).value)
    decreases |s| - from
  {
    hide FrameAt;
    if d + from < |s| {
      FrameAtShifts(s, d, from);
      if !FrameAt(s, d + from) { LeftmostShifts(s, d, from + 1); }
    }
  }

  lemma {:induction false} LeftmostSkips(s: seq<byte>, from: nat, next: nat)
    requires from <= next
    requires forall i | from <= i < next :: !FrameAt(s, i)
    ensures Leftmost(s, from) == Leftmost(s, next)
    decreases next - from
  {
    hide FrameAt;
    if from < next && from < |s| { LeftmostSkips(s, from + 1, next); }
  }

  lemma DropDrop(s: seq<byte>, d: nat, e: nat)
    requires d + e <= |s|
    ensures s[d..][e..] == s[d + e..]
  {}

  lemma FramesUnfold(s: seq<byte>)
    ensures Leftmost(s, 0).None? ==> Frames(s) == []
    ensures Leftmost(s, 0).Some? ==>
              var i := Leftmost(s, 0).value;
              Frames(s) == [ResponseAt(s, i)] + Frames(s[EndOf(s, i)..])
  {
    hide FrameAt, EndOf, ResponseAt, Leftmost;
  }

  /** Positions that start no frame can go without a change to the parse. */
  lemma FramesSkip(s: seq<byte>, d: nat)
    requires d <= |s|
    requires forall i | 0 <= i < d :: !FrameAt(s, i)
    ensures Frames(s) == Frames(s[d..])
  {
    hide FrameAt, EndOf, ResponseAt, Leftmost, Frames;
    LeftmostSkips(s, 0, d);
    LeftmostShifts(s, d, 0);
    FramesUnfold(s);
    FramesUnfold(s[d..]);
    match Leftmost(s[d..], 0) {
      case None =>
      case Some(i) =>
        FrameAtShifts(s, d, i);
        DropDrop(s, d, EndOf(s[d..], i));
    }
  }

  lemma FrameExtends(s: seq<byte>, ext: seq<byte>)
    requires FrameAt(s, 0)
    ensures FrameAt(s + ext, 0) && EndOf(s + ext, 0) == EndOf(s, 0)
    ensures ResponseAt(s + ext, 0) == ResponseAt(s, 0)
  {
    hide Modbus.Checks;
    var w, end := s + ext, EndOf(s, 0);
    assert LengthAt(w, 0) == LengthAt(s, 0);
    assert w[0..end - 2] == s[0..end - 2] && w[5..end - 2] == s[5..end - 2];
  }

  /** A frame at the front is the first of the parse, whatever follows. */
  lemma FramesTake(s: seq<byte>, ext: seq<byte>)
    requires FrameAt(s, 0)
    ensures Frames(s + ext) == [ResponseAt(s, 0)] + Frames(s[EndOf(s, 0)..] + ext)
  {
    FrameExtends(s, ext);
    hide FrameAt, EndOf, ResponseAt, Frames;
    var w, end := s + ext, EndOf(s, 0);
    assert Leftmost(w, 0) == Some(0);
    FramesUnfold(w);
    assert w[end..] == s[end..] + ext;
  }

  /** q is the start of a frame of the parse. */
  predicate InParse(s: seq<byte>, from: nat, q: nat)
    decreases |s| - from
  {
    match Leftmost(s, from)
    case None => false
    case Some(i) => q == i || InParse(s, EndOf(s, i), q)
  }

  lemma {:induction false} ParsedAppears(s: seq<byte>, from: nat, q: nat)
    requires from <= |s| && InParse(s, from, q)
    ensures FrameAt(s, q) && ResponseAt(s, q) in Frames(s[from..])
    decreases |s| - from
  {
    hide FrameAt, EndOf, ResponseAt, Leftmost, Frames;
    var i := Leftmost(s, from).value;
    LeftmostShifts(s, from, 0);
    FramesUnfold(s[from..]);
    FrameAtShifts(s, from, i - from);
    DropDrop(s, from, EndOf(s[from..], i - from));
    if q != i { ParsedAppears(s, EndOf(s, i), q); }
  }

  /** No valid frame is lost: each is in the parse, or starts inside an earlier one that is. */
  lemma {:induction false} FrameIsParsedOrOverlapped(s: seq<byte>, from: nat, p: nat)
    requires from <= p && FrameAt(s, p)
    ensures exists q: nat :: InParse(s, from, q) && FrameAt(s, q) && from <= q <= p < EndOf(s, q)
    decreases |s| - from
  {
    hide FrameAt, EndOf;
    var i := Leftmost(s, from).value;
    if p < EndOf(s, i) {
      assert InParse(s, from, i);
    } else {
      FrameIsParsedOrOverlapped(s, EndOf(s, i), p);
      var q: nat :| InParse(s, EndOf(s, i), q) && FrameAt(s, q) && EndOf(s, i) <= q <= p < EndOf(s, q);
      assert InParse(s, from, q);
    }
  }

  // ---- parsing in progress ---------------------------------------------------------------------------

  /** A parser that received `received`, consumed `consumed` and kept `buffer` has lost nothing: for
      every continuation of the stream the parse is what it consumed, followed by the parse of what it
      kept. And the first byte is kept until something is consumed, if a frame may start there. */
  ghost predicate OnTrack(received: seq<byte>, consumed: seq<Response>, buffer: seq<byte>) {
    && |buffer| <= |received| && received[|received| - |buffer|..] == buffer
    && (forall ext :: Frames(received + ext) == consumed + Frames(buffer + ext))
    && (forall ext | FrameAt(received + ext, 0) :: consumed != [] || buffer == received)
  }

  lemma TrackStarts()
    ensures OnTrack([], [], [])
  {
    forall ext ensures Frames([] + ext) == [] + Frames([] + ext) {}
  }

  lemma TrackReceives(received: seq<byte>, consumed: seq<Response>, buffer: seq<byte>, b: byte)
    requires OnTrack(received, consumed, buffer)
    ensures OnTrack(received + [b], consumed, buffer + [b])
  {
    hide Frames, FrameAt;
    forall ext
      ensures Frames(received + [b] + ext) == consumed + Frames(buffer + [b] + ext)
    {
      assert received + [b] + ext == received + ([b] + ext);
      assert buffer + [b] + ext == buffer + ([b] + ext);
    }
    forall ext | FrameAt(received + [b] + ext, 0) ensures consumed != [] || buffer + [b] == received + [b] {
      assert received + [b] + ext == received + ([b] + ext);
    }
  }

  lemma TrackDrops(received: seq<byte>, consumed: seq<Response>, buffer: seq<byte>, d: nat)
    requires OnTrack(received, consumed, buffer)
    requires d <= |buffer| && forall i | 0 <= i < d :: Dead(buffer, i)
    ensures OnTrack(received, consumed, buffer[d..])
  {
    hide Frames, Dead, FrameAt;
    forall ext
      ensures Frames(received + ext) == consumed + Frames(buffer[d..] + ext)
    {
      forall i | 0 <= i < d ensures !FrameAt(buffer + ext, i) { DeadStaysDead(buffer, ext, i); }
      FramesSkip(buffer + ext, d);
      assert (buffer + ext)[d..] == buffer[d..] + ext;
    }
    forall ext | FrameAt(received + ext, 0) ensures consumed != [] || buffer[d..] == received {
      if d > 0 && buffer == received { DeadStaysDead(buffer, ext, 0); }
    }
  }

  lemma TrackConsumes(received: seq<byte>, consumed: seq<Response>, buffer: seq<byte>)
    requires OnTrack(received, consumed, buffer)
    requires FrameAt(buffer, 0)
    ensures OnTrack(received, consumed + [ResponseAt(buffer, 0)], buffer[EndOf(buffer, 0)..])
  {
    hide Frames, FrameAt;
    var r, end := ResponseAt(buffer, 0), EndOf(buffer, 0);
    forall ext
      ensures Frames(received + ext) == consumed + [r] + Frames(buffer[end..] + ext)
    {
      FramesTake(buffer, ext);
      assert consumed + ([r] + Frames(buffer[end..] + ext)) == consumed + [r] + Frames(buffer[end..] + ext);
    }
  }

  /** In particular, what was consumed is a prefix of the parse of what was received. */
  lemma ConsumedIsPrefix(received: seq<byte>, consumed: seq<Response>, buffer: seq<byte>)
    requires OnTrack(received, consumed, buffer)
    ensures Frames(received) == consumed + Frames(buffer)
    ensures consumed <= Frames(received)
  {
    hide Frames;
    assert received + [] == received && buffer + [] == buffer;
  }

  // ---- replies ---------------------------------------------------------------------------------------

  /** A frame as it goes on the wire, in either direction: send_frame, and the replies of the bootloader. */
  function Frame(cmd: byte, data: seq<byte>): (f: seq<byte>)
    requires |data| < 0x1_0000
    ensures |f| == |data| + 7
  {
    var head := [0x01, 0x45, cmd] + BigEndian(|data|) + data;
    head + Modbus.WireBytes(Modbus.Crc(head))
  }

  /** The replies there are. */
  predicate IsReply(cmd: byte, payload: seq<byte>) {
    (cmd, |payload|) in {(0x11, 2), (0x12, 4), (0x12, 7), (0x13, 19)}
  }

  /** f is a frame for this command and these data: header, length, data, and the CRC of all that. */
  predicate Carries(f: seq<byte>, cmd: byte, data: seq<byte>) {
    && |data| < 0x1_0000 && |f| == |data| + 7
    && f[..5] == [0x01, 0x45, cmd] + BigEndian(|data|)
    && f[5..|f| - 2] == data
    && Modbus.Checks(f[..|f| - 2], f[|f| - 2], f[|f| - 1])
  }

  lemma FrameCarries(cmd: byte, data: seq<byte>)
    requires |data| < 0x1_0000
    ensures Carries(Frame(cmd, data), cmd, data)
  {
    hide Modbus.Crc, Modbus.Checks, Modbus.WireBytes, BigEndian;
    var front := [0x01, 0x45, cmd] + BigEndian(|data|);
    var w := Modbus.WireBytes(Modbus.Crc(front + data));
    var f := front + data + w;
    assert Frame(cmd, data) == f;
    assert |front| == 5 && [w[0], w[1]] == w;
    assert f[..|data| + 5] == front + data;
    Modbus.ChecksIff(front + data, w[0], w[1]);
  }

  lemma ReplyParts(cmd: byte, payload: seq<byte>)
    requires |payload| < 0x1_0000
    ensures var f := Frame(cmd, payload); var n := |payload|;
      && f[0] == 0x01 && f[1] == 0x45 && f[2] == cmd && U16(f[3], f[4]) == n
      && f[5..n + 5] == payload
      && Modbus.Checks(f[..n + 5], f[n + 5], f[n + 6])
  {
    hide Modbus.Crc, Modbus.Checks, Modbus.WireBytes, BigEndian, U16;
    var head := [0x01, 0x45, cmd] + BigEndian(|payload|) + payload;
    var w := Modbus.WireBytes(Modbus.Crc(head));
    DecodeEncode(|payload|);
    Modbus.ChecksIff(head, w[0], w[1]);
    assert (head + w)[..|payload| + 5] == head;
    assert [w[0], w[1]] == w;
  }

  /** Every reply starts a frame, and is the one that is read back, whatever follows. */
  lemma ReplyIsParsed(cmd: byte, payload: seq<byte>, rest: seq<byte>)
    requires IsReply(cmd, payload)
    ensures var s := Frame(cmd, payload) + rest;
      FrameAt(s, 0) && ResponseAt(s, 0) == Response(cmd, payload)
      && Frames(s) == [Response(cmd, payload)] + Frames(rest)
  {
    hide Modbus.Checks, Modbus.Crc, Modbus.WireBytes, Frames, Frame, U16;
    var f := Frame(cmd, payload);
    ReplyParts(cmd, payload);
    assert f[0..|f| - 2] == f[..|payload| + 5];
    assert FrameAt(f, 0) && ResponseAt(f, 0) == Response(cmd, payload) && EndOf(f, 0) == |f|;
    FrameExtends(f, rest);
    FramesTake(f, rest);
    assert f[|f|..] + rest == rest;
  }

  /** And nothing else starts one: a frame stands at i if and only if one of the replies does. */
  lemma FrameIsReply(s: seq<byte>, i: nat)
    requires i <= |s|
    ensures FrameAt(s, i)
       <==> exists cmd, payload | IsReply(cmd, payload) :: Frame(cmd, payload) <= s[i..]
  {
    hide FrameAt, Frame, EndOf, ResponseAt;
    FrameAtShifts(s, i, 0);
    if FrameAt(s, i) {
      FrontIsReply(s[i..]);
    }
    forall cmd, payload | IsReply(cmd, payload) && Frame(cmd, payload) <= s[i..] ensures FrameAt(s, i) {
      var f := Frame(cmd, payload);
      ReplyIsParsed(cmd, payload, s[i..][|f|..]);
      assert f + s[i..][|f|..] == s[i..];
    }
  }

  lemma FrontIsReply(s: seq<byte>)
    requires FrameAt(s, 0)
    ensures var r := ResponseAt(s, 0);
      IsReply(r.cmd, r.payload) && Frame(r.cmd, r.payload) == s[..EndOf(s, 0)]
  {
    hide Modbus.Checks, Modbus.Crc, Modbus.WireBytes, BigEndian, U16;
    var r, end := ResponseAt(s, 0), EndOf(s, 0);
    EncodeDecode(s[3], s[4]);
    Modbus.ChecksIff(s[0..end - 2], s[end - 2], s[end - 1]);
    assert s[0..end - 2] == [0x01, 0x45, r.cmd] + BigEndian(|r.payload|) + r.payload;
    assert s[..end] == s[0..end - 2] + [s[end - 2], s[end - 1]];
  }
}
