/** The OTA updater, a channel and a bootloader. The channel may lose, delay, duplicate and reorder: every
    message once sent may arrive at any later time, any number of times, or never. The bootloader writes
    block k only when k is the index it expects next, and its replies carry that index; statuses, and
    whether and when it writes or replies, are free. */
module OtaLink {
  import opened Wrappers
  import opened Bytes
  import opened Wire
  import opened OtaSender
  import opened OtaSafety
  import opened OtaFrames
  import Modbus

  // ---- the bootloader ----------------------------------------------------------------------------------

  datatype Device = Device(next: nat, image: seq<byte>)

  /** A data frame that the bootloader takes: header, length and CRC are good. */
  predicate IsData(f: seq<byte>) {
    && |f| >= 17 && f[0] == 0x01 && f[1] == 0x45 && f[2] == 0x13 && U16(f[3], f[4]) == |f| - 7
    && Modbus.Checks(f[..|f| - 2], f[|f| - 2], f[|f| - 1])
  }

  /** The block index a data frame carries, */
  function FrameIndex(f: seq<byte>): nat
    requires IsData(f)
  {
    U16(f[9], f[10])
  }

  /** and its block. */
  function FrameBlock(f: seq<byte>): seq<byte>
    requires IsData(f)
  {
    f[15..|f| - 2]
  }

  /** The bootloader on receipt of a frame, when it writes at all. */
  function Write(d: Device, f: seq<byte>): Device {
    if IsData(f) && FrameIndex(f) == d.next then Device(d.next + 1, d.image + FrameBlock(f)) else d
  }

  predicate Honest(d: Device, r: Response) {
    || (r.cmd == 0x11 && |r.payload| == 2)
    || (r.cmd == 0x12 && |r.payload| in {4, 7} && U16(r.payload[2], r.payload[3]) == d.next)
    || (r.cmd == 0x13 && |r.payload| == 19 && Requested(r.payload) == d.next)
  }

  // ---- the whole ---------------------------------------------------------------------------------------

  datatype Link = Link(ph: Phase, sent: set<seq<byte>>, device: Device, replies: set<Response>)

  function ToSet(s: seq<seq<byte>>): set<seq<byte>> { set f | f in s }

  predicate Starts(image: seq<byte>, s: Link) {
    && WellFormed(image, s.ph) && s.ph == Asking(1)
    && s.sent == ToSet(Emits(image, s.ph))
    && s.replies == {}
    && (s.device.next == 0 ==> s.device.image == [])
  }

  /** The updater hears input i: a reply to its command that was sent some time, or nothing in time. */
  predicate Hears(image: seq<byte>, s: Link, i: Input, s': Link) {
    && WellFormed(image, s.ph) && Admissible(s.ph, i)
    && (i.Reply? ==> Response(Command(s.ph), i.payload) in s.replies)
    && s'.ph == Next(image, s.ph, i)
    && s'.sent == s.sent + (if s'.ph == s.ph then {} else ToSet(Emits(image, s'.ph)))
    && s'.device == s.device && s'.replies == s.replies
  }

  /** A frame sent some time reaches the bootloader, which writes. */
  predicate Takes(s: Link, f: seq<byte>, s': Link) {
    f in s.sent && s' == s.(device := Write(s.device, f))
  }

  predicate Replies(s: Link, r: Response, s': Link) {
    Honest(s.device, r) && s' == s.(replies := s.replies + {r})
  }

  ghost predicate Step(image: seq<byte>, s: Link, s': Link) {
    || (exists i :: Hears(image, s, i, s'))
    || (exists f :: Takes(s, f, s'))
    || (exists r :: Replies(s, r, s'))
  }

  ghost predicate IsRun(image: seq<byte>, run: seq<Link>) {
    && run != [] && Starts(image, run[0])
    && forall k | 0 <= k < |run| - 1 :: Step(image, run[k], run[k + 1])
  }

  // ---- data frames carry their block -------------------------------------------------------------------

  lemma FrameHoldsData(cmd: byte, data: seq<byte>)
    requires |data| < 0x1_0000
    ensures var f := Frame(cmd, data);
      && f[0] == 0x01 && f[1] == 0x45 && f[2] == cmd && U16(f[3], f[4]) == |f| - 7 && f[5..|f| - 2] == data
      && Modbus.Checks(f[..|f| - 2], f[|f| - 2], f[|f| - 1])
  {
    hide Modbus.Crc, Modbus.Checks, Frame, BigEndian, U16;
    ReplyParts(cmd, data);
  }

  lemma BlockDataParts(image: seq<byte>, chunk: nat, k: nat)
    requires |image| >= 22 && 0 < chunk <= 1024
    requires k < TotalBlocks(|image|, chunk) <= 0xFFFF
    ensures k * chunk <= |image|
    ensures var data := BlockData(image, chunk, k);
      && data[..3] == image[13..16] && data[3] == image[12]
      && data[4] == BigEndian(k)[0] && data[5] == BigEndian(k)[1]
      && data[6] == BigEndian(TotalBlocks(|image|, chunk))[0] && data[7] == BigEndian(TotalBlocks(|image|, chunk))[1]
      && data[8] == HiByte(Modbus.Crc(Chunk(image, chunk, k))) && data[9] == LoByte(Modbus.Crc(Chunk(image, chunk, k)))
      && data[10..] == Chunk(image, chunk, k)
  {
    hide Modbus.Crc, HiByte, LoByte, BigEndian, Chunk;
    BlockStart(image, chunk, k);
    var block := Chunk(image, chunk, k);
    var crc := Modbus.Crc(block);
    var a, b, c, d, e := image[13..16], image[12..13], BigEndian(k), BigEndian(TotalBlocks(|image|, chunk)),
      [HiByte(crc), LoByte(crc)];
    hide TotalBlocks;
    assert |a| == 3 && |b| == 1 && |c| == 2 && |d| == 2 && |e| == 2;
  }

  lemma DataFrameDecodes(image: seq<byte>, chunk: nat, k: nat)
    requires |image| >= 22 && 0 < chunk <= 1024
    requires k < TotalBlocks(|image|, chunk) <= 0xFFFF
    ensures k * chunk <= |image|
    ensures var f := Frame(0x13, BlockData(image, chunk, k));
      && IsData(f) && FrameIndex(f) == k && FrameBlock(f) == Chunk(image, chunk, k)
      && f[5..8] == image[13..16] && f[8] == image[12]
      && U16(f[11], f[12]) == TotalBlocks(|image|, chunk)
      && Join(f[13], f[14]) == Modbus.Crc(FrameBlock(f))
  {
    hide TotalBlocks, U16, Chunk, BigEndian, Frame, BlockData, Modbus.Crc, HiByte, LoByte, Join;
    var data := BlockData(image, chunk, k);
    var f := Frame(0x13, data);
    BlockDataParts(image, chunk, k);
    FrameHoldsData(0x13, data);
    assert f[9] == f[5..|f| - 2][4] && f[10] == f[5..|f| - 2][5];
    assert f[15..|f| - 2] == f[5..|f| - 2][10..];
    assert f[5..8] == f[5..|f| - 2][..3] && f[8] == f[5..|f| - 2][3];
    assert f[11] == f[5..|f| - 2][6] && f[12] == f[5..|f| - 2][7];
    assert f[13] == f[5..|f| - 2][8] && f[14] == f[5..|f| - 2][9];
    DecodeEncode(k);
    DecodeEncode(TotalBlocks(|image|, chunk));
    Halves(Modbus.Crc(Chunk(image, chunk, k)), f[13], f[14]);
  }

  lemma OtherFramesAreNoData(image: seq<byte>, ph: Phase)
    requires WellFormed(image, ph) && !ph.Sending?
    ensures forall f | f in Emits(image, ph) :: !IsData(f)
  {
    hide Modbus.Crc, Modbus.WireBytes, Metadata;
  }

  // ---- the invariant -----------------------------------------------------------------------------------

  /** All data frames on the way are blocks of the image, none beyond idx. */
  ghost predicate BlocksUpTo(image: seq<byte>, chunk: nat, idx: nat, sent: set<seq<byte>>)
    requires |image| >= 22 && 0 < chunk <= 1024 && idx < TotalBlocks(|image|, chunk) <= 0xFFFF
  {
    forall f | f in sent && IsData(f) ::
      exists k | 0 <= k <= idx :: f == Frame(0x13, BlockData(image, chunk, k))
  }

  predicate NoneBeyond(replies: set<Response>, next: nat) {
    forall r | r in replies && r.cmd == 0x13 :: |r.payload| == 19 && Requested(r.payload) <= next
  }

  /** What is written is the first `next` blocks. */
  predicate Written(image: seq<byte>, chunk: nat, d: Device)
    requires chunk > 0
  {
    d.next <= TotalBlocks(|image|, chunk) && d.image == Blocks(image, chunk, d.next)
  }

  predicate Untouched(s: Link) {
    && (s.device.next == 0 ==> s.device.image == [])
    && (forall f | f in s.sent :: !IsData(f))
    && (forall r | r in s.replies :: Honest(s.device, r))
  }

  ghost predicate Inv(image: seq<byte>, s: Link) {
    && WellFormed(image, s.ph)
    && match s.ph
       case Asking(_) => Untouched(s)
       case Describing(_) => Untouched(s)
       case Sending(chunk, idx, _) =>
         && idx <= s.device.next <= idx + 1
         && Written(image, chunk, s.device)
         && BlocksUpTo(image, chunk, idx, s.sent)
         && Frame(0x13, BlockData(image, chunk, idx)) in s.sent
         && NoneBeyond(s.replies, s.device.next)
       case Checking(chunk) =>
         && s.device.next == TotalBlocks(|image|, chunk)
         && Written(image, chunk, s.device)
         && BlocksUpTo(image, chunk, s.device.next - 1, s.sent)
       case Ended(_) => true
  }

  lemma StartInv(image: seq<byte>, s: Link)
    requires Starts(image, s)
    ensures Inv(image, s)
  {
    OtherFramesAreNoData(image, s.ph);
  }

  lemma TakesInv(image: seq<byte>, s: Link, f: seq<byte>, s': Link)
    requires Inv(image, s) && Takes(s, f, s')
    ensures Inv(image, s')
  {
    hide Frame, BlockData, TotalBlocks, FrameIndex, FrameBlock, IsData, Honest, Requested;
    match s.ph {
      case Sending(chunk, idx, _) =>
        if IsData(f) && FrameIndex(f) == s.device.next {
          var k :| 0 <= k <= idx && f == Frame(0x13, BlockData(image, chunk, k));
          DataFrameDecodes(image, chunk, k);
        }
      case Checking(chunk) =>
        if IsData(f) {
          var k :| 0 <= k <= s.device.next - 1 && f == Frame(0x13, BlockData(image, chunk, k));
          DataFrameDecodes(image, chunk, k);
        }
      case _ =>
    }
  }

  lemma RepliesInv(image: seq<byte>, s: Link, r: Response, s': Link)
    requires Inv(image, s) && Replies(s, r, s')
    ensures Inv(image, s')
  {
    hide Frame, BlockData, TotalBlocks, IsData, Requested, Blocks;
  }

  /** What hearing an input does while blocks are sent. */
  lemma SendingHears(image: seq<byte>, s: Link, i: Input, s': Link)
    requires Inv(image, s) && s.ph.Sending? && Hears(image, s, i, s')
    ensures Inv(image, s')
  {
    hide Frame, BlockData, TotalBlocks, IsData, Requested, SameFirmware, Blocks;
    var chunk, idx := s.ph.chunk, s.ph.idx;
    if s'.ph.Sending? && s'.ph != s.ph {
      assert s'.sent == s.sent + {Frame(0x13, BlockData(image, chunk, s'.ph.idx))};
    }
  }

  /** What hearing an input does before. */
  lemma HandshakeHears(image: seq<byte>, s: Link, i: Input, s': Link)
    requires Inv(image, s) && (s.ph.Asking? || s.ph.Describing?) && Hears(image, s, i, s')
    ensures Inv(image, s')
  {
    hide Frame, BlockData, IsData, SameFirmware, Metadata, ChunkSize;
    if s'.ph.Sending? {
      assert Honest(s.device, Response(0x12, i.payload));
      assert s.device.next == 0;
      assert s'.sent == s.sent + {Frame(0x13, BlockData(image, s'.ph.chunk, 0))};
    } else {
      OtherFramesAreNoData(image, s'.ph);
    }
  }

  lemma StepInv(image: seq<byte>, s: Link, s': Link)
    requires Inv(image, s) && Step(image, s, s')
    ensures Inv(image, s')
  {
    hide Inv, Hears, Takes, Replies;
    if i :| Hears(image, s, i, s') {
      HearsInv(image, s, i, s');
    } else if f :| Takes(s, f, s') {
      TakesInv(image, s, f, s');
    } else {
      var r :| Replies(s, r, s');
      RepliesInv(image, s, r, s');
    }
  }

  lemma HearsInv(image: seq<byte>, s: Link, i: Input, s': Link)
    requires Inv(image, s) && Hears(image, s, i, s')
    ensures Inv(image, s')
  {
    hide Untouched, Written, BlocksUpTo, NoneBeyond;
    match s.ph {
      case Asking(_) => HandshakeHears(image, s, i, s');
      case Describing(_) => HandshakeHears(image, s, i, s');
      case Sending(_, _, _) => SendingHears(image, s, i, s');
      case Checking(_) => assert s' == s;
      case Ended(_) => assert s' == s;
    }
  }

  /** Stop and wait over any channel: in every state of every run the bootloader is at the block being sent
      or one ahead and holds exactly the blocks before; and when the updater takes all blocks for
      acknowledged, the bootloader holds the firmware, byte for byte. */
  lemma {:induction false} TransferIsCorrect(image: seq<byte>, run: seq<Link>, k: nat)
    requires IsRun(image, run) && k < |run|
    ensures Inv(image, run[k])
    ensures var s := run[k];
      && (s.ph.Sending? ==>
            && s.ph.idx <= s.device.next <= s.ph.idx + 1
            && s.device.image == image[..Covered(|image|, s.ph.chunk, s.device.next)])
      && (s.ph.Checking? ==> s.device.image == image)
    decreases k
  {
    if k == 0 {
      StartInv(image, run[0]);
    } else {
      TransferIsCorrect(image, run, k - 1);
      StepInv(image, run[k - 1], run[k]);
    }
    var s := run[k];
    if s.ph.Sending? { BlocksPartition(image, s.ph.chunk, s.device.next); }
    if s.ph.Checking? { BlocksPartition(image, s.ph.chunk, s.device.next); }
  }

  /** An acknowledgement is taken for block idx only when block idx has been written: one that was sent, or
      duplicated, for an earlier block is never taken for it. */
  lemma AcknowledgementIsGenuine(image: seq<byte>, run: seq<Link>, k: nat, i: Input)
    requires IsRun(image, run) && k + 1 < |run| && run[k].ph.Sending?
    requires Hears(image, run[k], i, run[k + 1])
    requires run[k + 1].ph == Advance(image, run[k].ph)
    ensures run[k].device.next == run[k].ph.idx + 1
  {
    hide Emits, TotalBlocks, Requested, SameFirmware, Blocks, BlocksUpTo, Frame, BlockData, IsRun;
    TransferIsCorrect(image, run, k);
    AdvancesIff(image, run[k].ph, i);
  }

  /** What a reply does to the block that is out. It is taken for an acknowledgement if and only if it has
      the identity of the firmware, asks for the block after this one, and reports 00 or 02; the updater
      waits on after a reply for other firmware, after one that still asks for this block or an earlier one
      with status 00, and after one that asks for any other with status 02; all else costs an attempt. */
  lemma AdvancesIff(image: seq<byte>, ph: Phase, i: Input)
    requires WellFormed(image, ph) && Admissible(ph, i) && ph.Sending?
    ensures Next(image, ph, i) == Advance(image, ph)
       <==> i.Reply? && SameFirmware(image, i.payload) && Requested(i.payload) == ph.idx + 1
            && i.payload[0] in {0x00, 0x02}
    ensures Next(image, ph, i) == ph
       <==> i.Reply? && (|| !SameFirmware(image, i.payload)
                         || (i.payload[0] == 0x00 && Requested(i.payload) <= ph.idx)
                         || (i.payload[0] == 0x02 && Requested(i.payload) != ph.idx + 1))
    ensures Next(image, ph, i) in {Advance(image, ph), ph, Retry(ph)}
  {
    hide TotalBlocks, Requested, SameFirmware;
  }

  // ---- the program on the link -----------------------------------------------------------------------------

  /** A step of the bootloader. */
  ghost predicate Elsewhere(s: Link, s': Link) { (exists f :: Takes(s, f, s')) || (exists r :: Replies(s, r, s')) }

  /** What the updater hears along a run. */
  ghost predicate HearsAlong(image: seq<byte>, run: seq<Link>, inputs: seq<Input>)
    requires run != []
    decreases |run|
  {
    if |run| == 1 then inputs == []
    else
      var n := |run| - 1;
      || (&& inputs != [] && Hears(image, run[n - 1], inputs[|inputs| - 1], run[n])
          && HearsAlong(image, run[..n], inputs[..|inputs| - 1]))
      || (&& Elsewhere(run[n - 1], run[n])
          && HearsAlong(image, run[..n], inputs))
  }

  /** Every run has something the updater hears along it, */
  lemma {:induction false} EveryRunIsHeard(image: seq<byte>, run: seq<Link>) returns (inputs: seq<Input>)
    requires IsRun(image, run)
    ensures HearsAlong(image, run, inputs)
    decreases |run|
  {
    hide Hears, Takes, Replies, Starts;
    inputs := [];
    if |run| > 1 {
      var n := |run| - 1;
      inputs := EveryRunIsHeard(image, run[..n]);
      var s, s' := run[n - 1], run[n];
      assert Step(image, s, s');
      if i :| Hears(image, s, i, s') {
        assert (inputs + [i])[..|inputs|] == inputs;
        inputs := inputs + [i];
      }
    }
  }

  /** and along a run the updater is the automaton of what it hears: in its phase, and with what it sent. */
  lemma {:induction false} RunIsSender(image: seq<byte>, run: seq<Link>, inputs: seq<Input>)
    requires IsRun(image, run) && HearsAlong(image, run, inputs)
    ensures Fits(image, inputs)
    ensures var s := run[|run| - 1]; s.ph == After(image, inputs) && s.sent == ToSet(Sent(image, inputs))
    decreases |run|
  {
    hide Emits, Next, Admissible, Honest, Write, WellFormed, Hears;
    if |run| == 1 {
      StartIsSender(image, run[0]);
    } else {
      var n := |run| - 1;
      assert run[..n][n - 1] == run[n - 1];
      if inputs != [] && Hears(image, run[n - 1], inputs[|inputs| - 1], run[n])
         && HearsAlong(image, run[..n], inputs[..|inputs| - 1])
      {
        RunIsSender(image, run[..n], inputs[..|inputs| - 1]);
        HearsIsSender(image, run[n - 1], inputs, run[n]);
      } else {
        RunIsSender(image, run[..n], inputs);
      }
    }
  }

  lemma StartIsSender(image: seq<byte>, s: Link)
    requires Starts(image, s)
    ensures Fits(image, []) && s.ph == After(image, []) && s.sent == ToSet(Sent(image, []))
  {}

  lemma HearsIsSender(image: seq<byte>, s: Link, inputs: seq<Input>, s': Link)
    requires inputs != [] && Hears(image, s, inputs[|inputs| - 1], s')
    requires Fits(image, inputs[..|inputs| - 1])
    requires s.ph == After(image, inputs[..|inputs| - 1]) && s.sent == ToSet(Sent(image, inputs[..|inputs| - 1]))
    ensures Fits(image, inputs) && s'.ph == After(image, inputs) && s'.sent == ToSet(Sent(image, inputs))
  {
    hide Emits, Next, Admissible, WellFormed;
    var before := Sent(image, inputs[..|inputs| - 1]);
    ToSetConcat(before, if s'.ph == s.ph then [] else Emits(image, s'.ph));
  }

  lemma ToSetConcat(a: seq<seq<byte>>, b: seq<seq<byte>>)
    ensures ToSet(a + b) == ToSet(a) + ToSet(b)
  {}

  /** What the updater hears on a link to an honest bootloader leads it to the check only when the bootloader
      holds the firmware. */
  lemma CheckMeansWritten(image: seq<byte>, run: seq<Link>, inputs: seq<Input>)
    requires IsRun(image, run) && HearsAlong(image, run, inputs)
    ensures Fits(image, inputs)
    ensures After(image, inputs).Checking? ==> run[|run| - 1].device.image == image
  {
    hide IsRun, HearsAlong, After, Fits, Sent, Inv;
    RunIsSender(image, run, inputs);
    NotEmpty(image, run);
    TransferIsCorrect(image, run, |run| - 1);
  }

  lemma NotEmpty(image: seq<byte>, run: seq<Link>)
    requires IsRun(image, run)
    ensures run != []
  {
    hide Starts, Step;
  }

  // ---- completion ----------------------------------------------------------------------------------------

  function Acknowledgement(image: seq<byte>, next: nat): (r: seq<byte>)
    requires |image| >= 22 && next < 0x1_0000
    ensures |r| == 19 && r[0] == 0 && SameFirmware(image, r) && Requested(r) == next
  {
    DecodeEncode(next);
    var r := [0, 0, 0, image[12]] + BigEndian(next) + image[..10] + [0, 0, 0];
    assert r[4] == BigEndian(next)[0] && r[5] == BigEndian(next)[1] && r[6..16] == image[..10];
    r
  }

  ghost predicate Continues(image: seq<byte>, s: Link, run: seq<Link>) {
    && run != [] && run[0] == s
    && forall k | 0 <= k < |run| - 1 :: Step(image, run[k], run[k + 1])
  }

  /** The guarantees are not empty: from every state of the transfer, whatever was lost or repeated before,
      a bootloader that writes and replies brings it to the end. */
  lemma {:induction false} CanComplete(image: seq<byte>, s: Link) returns (run: seq<Link>)
    requires Inv(image, s) && s.ph.Sending?
    ensures Continues(image, s, run) && run[|run| - 1].ph.Checking?
    decreases TotalBlocks(|image|, s.ph.chunk) - s.ph.idx
  {
    hide Step, Inv, Frame, BlockData, TotalBlocks;
    var s1 := WriteCurrent(image, s);
    var s2, s3 := AcknowledgeCurrent(image, s1);
    if s3.ph.Checking? {
      run := [s, s1, s2, s3];
    } else {
      var rest := CanComplete(image, s3);
      run := [s, s1, s2] + rest;
    }
  }

  lemma WriteCurrent(image: seq<byte>, s: Link) returns (s1: Link)
    requires Inv(image, s) && s.ph.Sending?
    ensures Step(image, s, s1) && Inv(image, s1)
    ensures s1.ph == s.ph && s1.device.next == s.ph.idx + 1
  {
    hide TotalBlocks, IsData, FrameIndex, FrameBlock, Frame, BlockData;
    var f := Frame(0x13, BlockData(image, s.ph.chunk, s.ph.idx));
    s1 := s.(device := Write(s.device, f));
    DataFrameDecodes(image, s.ph.chunk, s.ph.idx);
    assert Takes(s, f, s1);
    TakesInv(image, s, f, s1);
  }

  lemma AcknowledgeCurrent(image: seq<byte>, s: Link) returns (s2: Link, s3: Link)
    requires Inv(image, s) && s.ph.Sending? && s.device.next == s.ph.idx + 1
    ensures Step(image, s, s2) && Step(image, s2, s3)
    ensures Inv(image, s3) && s3.ph == Advance(image, s.ph)
  {
    hide TotalBlocks, Frame, BlockData, Acknowledgement, SameFirmware, Requested;
    var r := Response(0x13, Acknowledgement(image, s.device.next));
    s2 := s.(replies := s.replies + {r});
    assert Replies(s, r, s2);
    RepliesInv(image, s, r, s2);
    var i := Reply(r.payload);
    var next := Next(image, s2.ph, i);
    s3 := s2.(ph := next, sent := s2.sent + (if next == s2.ph then {} else ToSet(Emits(image, next))));
    assert Hears(image, s2, i, s3);
    HearsInv(image, s2, i, s3);
  }
}
