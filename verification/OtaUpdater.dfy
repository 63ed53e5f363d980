/** The OTA updater, class BmsOta of scripts/bms_ota.py. */
module OtaUpdater {
  import opened Wrappers
  import opened Bytes
  import opened Wire
  import opened Serial
  import opened OtaFrames
  import Modbus
  import opened OtaSender
  import OtaPackage
  import OtaLink
  import OtaSafety

  /** What read_response returns: a payload, None, or an exception of the serial port. */
  datatype Heard = Got(payload: seq<byte>) | Silent | Broken

  /** The position of 01 45 in the buffer. */
  function Find(s: seq<byte>, from: nat): (r: Option<nat>)
    ensures r.Some? ==> from <= r.value && r.value + 1 < |s| && s[r.value] == 0x01 && s[r.value + 1] == 0x45
    ensures forall i | from <= i && i + 1 < |s| && (r.Some? ==> i < r.value) :: s[i] != 0x01 || s[i + 1] != 0x45
    decreases |s| - from
  {
    if from + 1 >= |s| then None
    else if s[from] == 0x01 && s[from + 1] == 0x45 then Some(from)
    else Find(s, from + 1)
  }

  /** The bytes among some events. */
  function BytesIn(ev: seq<Event>): seq<byte> {
    if ev == [] then []
    else
      var last := |ev| - 1;
      BytesIn(ev[..last]) + if ev[last].Byte? then [ev[last].b] else []
  }

  /** Nothing more can be made of the buffer without more bytes. */
  predicate Settled(s: seq<byte>) { s == [] || (!Dead(s, 0) && !FrameAt(s, 0)) }

  class BmsOta {
    const ser: SerialPort
    var rxBuffer: seq<byte>
    /** Since the buffer was last cleared: all bytes read, and the frames taken out of them. */
    ghost var received: seq<byte>
    ghost var consumed: seq<Response>
    /** What the run has heard so far. */
    ghost var inputs: seq<Input>

    ghost predicate Valid()
      reads this
    {
      OnTrack(received, consumed, rxBuffer)
    }

    constructor (ser: SerialPort)
      ensures Valid() && this.ser == ser && rxBuffer == [] && received == [] && consumed == []
    {
      this.ser := ser;
      rxBuffer, received, consumed, inputs := [], [], [], [];
      new;
      TrackStarts();
    }

    method ClearBuffer()
      modifies this
      ensures Valid() && rxBuffer == [] && received == [] && consumed == [] && inputs == old(inputs)
    {
      rxBuffer, received, consumed := [], [], [];
      TrackStarts();
    }

    /** Drops what cannot start a frame: everything before 01 45, or all but a last 01. */
    method Resynchronise()
      requires Valid()
      modifies this`rxBuffer
      ensures Valid()
      ensures |rxBuffer| <= |old(rxBuffer)|
      ensures |rxBuffer| >= 2 ==> rxBuffer[0] == 0x01 && rxBuffer[1] == 0x45
      ensures |rxBuffer| == 1 ==> rxBuffer[0] == 0x01
    {
      hide OnTrack, FrameAt, Known;
      var start := Find(rxBuffer, 0);
      match start {
        case None =>
          if |rxBuffer| > 0 && rxBuffer[|rxBuffer| - 1] == 0x01 {
            TrackDrops(received, consumed, rxBuffer, |rxBuffer| - 1);
            assert rxBuffer[|rxBuffer| - 1..] == [0x01];
            rxBuffer := [0x01];
          } else {
            TrackDrops(received, consumed, rxBuffer, |rxBuffer|);
            assert rxBuffer[|rxBuffer|..] == [];
            rxBuffer := [];
          }
        case Some(i) =>
          TrackDrops(received, consumed, rxBuffer, i);
          rxBuffer := rxBuffer[i..];
      }
    }

    /** One look at the buffer: drop, take a frame, or find that more bytes are needed. */
    method Examine() returns (v: Verdict)
      requires Valid()
      modifies this`rxBuffer, this`consumed
      ensures Valid()
      ensures |rxBuffer| <= |old(rxBuffer)|
      ensures v.Dropped? ==> consumed == old(consumed) && |rxBuffer| < |old(rxBuffer)|
      ensures v.Took? ==> consumed == old(consumed) + [v.response] && |rxBuffer| < |old(rxBuffer)|
                          && Known(v.response.cmd, |v.response.payload|)
      ensures v.NeedsMore? ==> consumed == old(consumed) && Settled(rxBuffer)
    {
      hide OnTrack, FrameAt, Dead, Known, Settled, ResponseAt, EndOf, U16, Join, Modbus.Crc;
      Resynchronise();
      if |rxBuffer| >= 5 {
        var cmd := rxBuffer[2];
        var length := U16(rxBuffer[3], rxBuffer[4]);
        if !Known(cmd, length) {
          UnknownIsDead(rxBuffer);
          TrackDrops(received, consumed, rxBuffer, 1);
          rxBuffer := rxBuffer[1..];
          return Dropped;
        }
        var size := 7 + length;
        if |rxBuffer| >= size {
          var frame := rxBuffer[..size];
          var receivedCrc := Join(frame[size - 1], frame[size - 2]);
          var expectedCrc := Modbus.ModbusCrc16(frame[..size - 2]);
          Judge(rxBuffer, size);
          if receivedCrc != expectedCrc {
            TrackDrops(received, consumed, rxBuffer, 1);
            rxBuffer := rxBuffer[1..];
            return Dropped;
          }
          TrackConsumes(received, consumed, rxBuffer);
          assert |frame[5..size - 2]| == length;
          v := Took(Response(cmd, frame[5..size - 2]));
          consumed := consumed + [v.response];
          rxBuffer := rxBuffer[size..];
          return;
        }
      }
      NothingMore(rxBuffer);
      return NeedsMore;
    }

    /** read_response. `patience` is how many readings of the clock are still before the deadline. In time, a
        reply to the command that comes first after the buffer was cleared is returned. */
    method ReadResponse(expectedCmd: byte, patience: nat) returns (r: Heard)
      requires Valid()
      modifies this`rxBuffer, this`received, this`consumed, ser`incoming
      ensures Valid()
      ensures ReadSoFar(old(ser.incoming), ser.incoming, old(received), received)
      ensures TookFor(expectedCmd, old(consumed), consumed, r)
      ensures r.Got? ==> Known(expectedCmd, |r.payload|)
      ensures r.Got? ==> 2 * |ser.incoming| + |rxBuffer| < 2 * |old(ser.incoming)| + |old(rxBuffer)|
      ensures Ends(r, old(ser.incoming), ser.incoming, rxBuffer, Patient(patience, old(ser.incoming), old(rxBuffer)))
      ensures old(received) == [] && old(consumed) == [] && Patient(patience, old(ser.incoming), old(rxBuffer)) ==>
                forall payload | IsReply(expectedCmd, payload) ::
                  Arrives(old(ser.incoming), Frame(expectedCmd, payload)) ==> r == Got(payload)
    {
      hide OnTrack, Known, BytesIn, ReadSoFar, TookFor, Ends, Frame, Arrives;
      ghost var all, cleared, patient := ser.incoming, received == [] && consumed == [],
        Patient(patience, ser.incoming, rxBuffer);
      r := ReadLoop(expectedCmd, patience);
      if cleared && patient {
        forall payload | IsReply(expectedCmd, payload) && Arrives(all, Frame(expectedCmd, payload))
          ensures r == Got(payload)
        {
          ReplyIsHeard(expectedCmd, payload, all, ser.incoming, received, consumed, rxBuffer, r);
        }
      }
    }

    method ReadLoop(expectedCmd: byte, patience: nat) returns (r: Heard)
      requires Valid()
      modifies this`rxBuffer, this`received, this`consumed, ser`incoming
      ensures Valid()
      ensures ReadSoFar(old(ser.incoming), ser.incoming, old(received), received)
      ensures TookFor(expectedCmd, old(consumed), consumed, r)
      ensures r.Got? ==> Known(expectedCmd, |r.payload|)
      ensures r.Got? ==> 2 * |ser.incoming| + |rxBuffer| < 2 * |old(ser.incoming)| + |old(rxBuffer)|
      ensures Ends(r, old(ser.incoming), ser.incoming, rxBuffer, Patient(patience, old(ser.incoming), old(rxBuffer)))
    {
      hide OnTrack, Known, Settled, BytesIn, CutShort, Stalled, ReadSoFar, TakenFor, TookFor;
      var left := patience;
      ghost var all, were, bytes := ser.incoming, consumed, received;
      NothingReadYet(all, bytes);
      NothingTaken(expectedCmd, were);
      while true
        invariant Valid()
        invariant ReadSoFar(all, ser.incoming, bytes, received)
        invariant TookFor(expectedCmd, were, consumed, Silent) && TookFor(expectedCmd, were, consumed, Broken)
        invariant left <= patience
        invariant patience - left <= 2 * (2 * |all| + |old(rxBuffer)| - (2 * |ser.incoming| + |rxBuffer|))
        decreases 2 * |ser.incoming| + |rxBuffer|
      {
        if left == 0 { return Silent; }
        left := left - 1;
        ghost var before := consumed;
        var v := Examine();
        match v {
          case Dropped => continue;
          case Took(response) =>
            OneTaken(expectedCmd, were, before, response);
            if response.cmd != expectedCmd { continue; }
            return Got(response.payload);
          case NeedsMore =>
        }
        if left == 0 { return Silent; }
        left := left - 1;
        ReadOne(all, ser.incoming, bytes, received);
        var e := ser.ReadByte();
        if e.Fault? { return Broken; }
        if !e.Byte? { return Silent; }
        TrackReceives(received, consumed, rxBuffer, e.b);
        rxBuffer := rxBuffer + [e.b];
        received := received + [e.b];
      }
      r := Silent;
    }

    // ---- the run -------------------------------------------------------------------------------------

    /** send_frame. */
    method SendFrame(cmd: byte, data: seq<byte>)
      requires |data| < 0x1_0000
      modifies ser`sent
      ensures ser.sent == old(ser.sent) + [Frame(cmd, data)]
      ensures Carries(ser.sent[|ser.sent| - 1], cmd, data)
    {
      hide Carries;
      FrameCarries(cmd, data);
      var frame := [0x01, 0x45, cmd] + BigEndian(|data|) + data;
      var crc := Modbus.ModbusCrc16(frame);
      ser.Write(frame + Modbus.WireBytes(crc));
    }

    /** Reads up to n bytes, and stops early when nothing more comes. */
    method ReadSome(n: nat) returns (reply: seq<byte>, broken: bool)
      modifies ser`incoming
      ensures Read(reply, ser.incoming, broken) == ReadUpTo(old(ser.incoming), n)
    {
      hide ReadUpTo;
      reply, broken := [], false;
      while |reply| < n
        invariant |reply| <= n && !broken
        invariant ReadUpTo(old(ser.incoming), n) == Preceded(reply, ReadUpTo(ser.incoming, n - |reply|))
      {
        ReadNext(ser.incoming, n - |reply|, reply);
        var e := ser.ReadByte();
        if e.Fault? { return reply, true; }
        if !e.Byte? { return; }
        reply := reply + [e.b];
      }
      ReadNone(ser.incoming);
    }

    /** enter_bootloader: the reply is read, and whatever it is, the buffer is cleared after the wait. */
    method EnterBootloader() returns (broken: bool)
      modifies this, ser`incoming, ser`sent
      ensures Valid() && inputs == old(inputs) && received == [] && consumed == []
      ensures ser.sent == old(ser.sent) + [ENTER_BOOTLOADER]
      ensures var read := ReadUpTo(old(ser.incoming), |ENTER_BOOTLOADER|);
        broken == read.broken && ser.incoming == read.left
    {
      hide ReadUpTo;
      ser.Write(ENTER_BOOTLOADER);
      var reply;
      reply, broken := ReadSome(|ENTER_BOOTLOADER|);
      ClearBuffer();
    }

    /** read_app_version. */
    method ReadAppVersion() returns (version: Option<(nat, nat)>, broken: bool)
      modifies this, ser`incoming, ser`sent
      ensures Valid() && inputs == old(inputs)
      ensures ser.sent == old(ser.sent) + [VERSION_QUERY]
      ensures var read := ReadUpTo(old(ser.incoming), 9);
        broken == read.broken && version == VersionRead(read) && ser.incoming == read.left
    {
      hide ReadUpTo;
      ClearBuffer();
      ser.Write(VERSION_QUERY);
      var response;
      response, broken := ReadSome(9);
      version := None;
      if broken || |response| < 9 { return; }
      ReadUpToAtMost(old(ser.incoming), 9);
      if response[..3] != [0x01, 0x03, 0x04] { return; }
      var receivedCrc := Join(response[8], response[7]);
      var computed := Modbus.ModbusCrc16(response[..7]);
      if receivedCrc != computed { return; }
      version := Some((U16(response[3], response[4]), U16(response[5], response[6])));
    }

    /** verify_completion and report_app_version: success is an APP that answers, with a version that
        differs from the one known before. */
    method VerifyCompletion(before: Option<(nat, nat)>) returns (ok: bool)
      modifies this, ser`incoming, ser`sent
      ensures Valid() && inputs == old(inputs)
      ensures var check := Checked(old(ser.incoming), before, 10);
        ok == check.ok && ser.sent == old(ser.sent) + Repeat(VERSION_QUERY, check.queries)
    {
      hide ReadUpTo, VersionRead, Repeat, OnTrack, Checked, SameCheck;
      ghost var sent, events := ser.sent, ser.incoming;
      var attempt := 1;
      RepeatNone(VERSION_QUERY);
      CheckStarts(events, before);
      while attempt <= 10
        invariant 1 <= attempt <= 11
        invariant Valid() || attempt == 1
        invariant inputs == old(inputs)
        invariant ser.sent == sent + Repeat(VERSION_QUERY, attempt - 1)
        invariant SameCheck(events, ser.incoming, before, attempt)
      {
        RepeatOnce(VERSION_QUERY, attempt);
        CheckOnce(events, ser.incoming, before, attempt);
        var version, broken := ReadAppVersion();
        assert ser.sent == sent + Repeat(VERSION_QUERY, attempt);
        if broken { return false; }
        if version.Some? { return before != version; }
        attempt := attempt + 1;
      }
      CheckEnds(events, ser.incoming, before);
      ok := false;
    }

    /** The upgrade so far: `all` are the events since its start, read up to some point, and the frames
        parsed out of them explain the inputs. */
    ghost predicate Listening(image: seq<byte>, all: seq<Event>)
      requires Fits(image, inputs)
      reads this, ser
    {
      && |ser.incoming| <= |all| && all[|all| - |ser.incoming|..] == ser.incoming
      && received == BytesIn(all[..|all| - |ser.incoming|])
      && Explained(image, inputs, consumed)
    }

    /** What was sent through send_frame since `base` is what the automaton sends for the inputs heard, but
        for the frame of its phase when that is still `owed`. */
    ghost predicate InStep(image: seq<byte>, base: seq<seq<byte>>, all: seq<Event>, ph: Phase, owed: bool)
      reads this, ser
    {
      && Valid() && Fits(image, inputs) && After(image, inputs) == ph && Listening(image, all)
      && ser.sent + (if owed then Emits(image, ph) else []) == base + Sent(image, inputs)
    }

    /** The run is over, by a broken port or because the automaton has ended with the same result. */
    ghost predicate Halted(image: seq<byte>, base: seq<seq<byte>>, all: seq<Event>, r: Progress)
      requires r.Stopped?
      reads this, ser
    {
      && Fits(image, inputs) && ser.sent == base + Sent(image, inputs)
      && (if r.broken then r.out == Returned(false) && CutShort(all, ser.incoming) && Waits(After(image, inputs))
          else After(image, inputs) == Ended(r.out))
      && |ser.incoming| <= |all| && all[|all| - |ser.incoming|..] == ser.incoming
      && Parsed(image, inputs, all[..|all| - |ser.incoming|])
    }

    /** The automaton hears one more input: what one call of read_response returned. */
    ghost method Hear(image: seq<byte>, base: seq<seq<byte>>, all: seq<Event>, ph: Phase, i: Input,
                      before: seq<Response>)
      requires Valid() && Fits(image, inputs) && After(image, inputs) == ph && Admissible(ph, i)
      requires |ser.incoming| <= |all| && all[|all| - |ser.incoming|..] == ser.incoming
      requires received == BytesIn(all[..|all| - |ser.incoming|])
      requires Explained(image, inputs, before) && before <= consumed
      requires TakenFor(Command(ph), consumed[|before|..], HeardAs(i))
      requires ser.sent == base + Sent(image, inputs)
      modifies this`inputs
      ensures InStep(image, base, all, Next(image, ph, i), Next(image, ph, i) != ph)
    {
      hide Sent, After, Fits, Emits, Next, OnTrack, Admissible, Explained, TakenFor, BytesIn;
      OneInputMore(image, inputs, i);
      ExplainedMore(image, inputs, i, before, consumed);
      ghost var ph', sent := Next(image, ph, i), Sent(image, inputs);
      ghost var more := if ph' != ph then Emits(image, ph') else [];
      assert base + (sent + more) == (base + sent) + more;
      inputs := inputs + [i];
    }

    /** One call of read_response for the command that is out. */
    method Listen(image: seq<byte>, ghost base: seq<seq<byte>>, ghost all: seq<Event>, ghost ph: Phase, cmd: byte)
      returns (heard: Heard)
      requires InStep(image, base, all, ph, false) && cmd == Command(ph)
      requires ph.Asking? || ph.Describing? || ph.Sending?
      modifies this, ser`incoming
      ensures ser.sent == old(ser.sent)
      ensures heard.Broken? ==> Halted(image, base, all, Stopped(Returned(false), true))
      ensures !heard.Broken? ==>
                && Admissible(ph, InputOf(heard))
                && InStep(image, base, all, Next(image, ph, InputOf(heard)), Next(image, ph, InputOf(heard)) != ph)
      ensures heard.Got? ==> 2 * |ser.incoming| + |rxBuffer| < 2 * |old(ser.incoming)| + |old(rxBuffer)|
    {
      hide Sent, After, Fits, Emits, Next, OnTrack, Explained, TakenFor, BytesIn, OtaSender.WellFormed;
      hide Known, Admissible, Parsed, Command, CutShort;
      ghost var before, was := consumed, ser.incoming;
      var patience: nat := *;
      heard := ReadResponse(cmd, patience);
      ghost var read := was[..|was| - |ser.incoming|];
      assert was == read + ser.incoming;
      ReadFurther(all, was, read, ser.incoming);
      assert before <= consumed;
      if heard.Broken? {
        CutShortStays(all, was, ser.incoming);
        ParsedWhenBroken(image, inputs, all, ser.incoming, received, before, consumed, rxBuffer);
      } else {
        KnownIsAdmissible(ph, heard);
        Hear(image, base, all, ph, InputOf(heard), before);
      }
    }

    /** send_frame, of the frame the phase owes. */
    method SendOwed(image: seq<byte>, ghost base: seq<seq<byte>>, ghost all: seq<Event>, ghost ph: Phase,
                    cmd: byte, data: seq<byte>)
      requires InStep(image, base, all, ph, true)
      requires |data| < 0x1_0000 && OtaSender.WellFormed(image, ph) && Emits(image, ph) == [Frame(cmd, data)]
      modifies ser`sent
      ensures InStep(image, base, all, ph, false)
    {
      hide Sent, After, Fits, Emits, Frame, OnTrack, Explained, BytesIn;
      SendFrame(cmd, data);
    }

    lemma PhaseIsWellFormed(image: seq<byte>, base: seq<seq<byte>>, all: seq<Event>, ph: Phase, owed: bool)
      requires InStep(image, base, all, ph, owed)
      ensures OtaSender.WellFormed(image, ph)
      ensures ph.Checking? ==> InStep(image, base, all, ph, false)
    {}

    lemma Over(image: seq<byte>, base: seq<seq<byte>>, all: seq<Event>, out: Outcome, owed: bool)
      requires InStep(image, base, all, Ended(out), owed)
      ensures Halted(image, base, all, Stopped(out, false))
    {
      hide Sent, After, Fits, OnTrack, Explained, BytesIn, Parsed;
      assert Emits(image, Ended(out)) == [];
      ParsedSoFar(image, inputs, all, ser.incoming, received, consumed, rxBuffer);
    }

    /** Step 2 of run: the upgrade request, up to three times. */
    method RequestUpgrade(image: seq<byte>, ghost base: seq<seq<byte>>, ghost all: seq<Event>) returns (r: Progress)
      requires InStep(image, base, all, Asking(1), true)
      modifies this, ser`incoming, ser`sent
      ensures r.Stopped? ==> Halted(image, base, all, r)
      ensures r.Continue? ==> InStep(image, base, all, Describe(image), true)
    {
      hide InStep, Halted, Frame;
      var attempt := 1;
      while attempt <= 3
        invariant 1 <= attempt <= 4
        invariant InStep(image, base, all, if attempt <= 3 then Asking(attempt) else Describe(image), true)
      {
        PhaseIsWellFormed(image, base, all, Asking(attempt), true);
        SendOwed(image, base, all, Asking(attempt), 0x11, REQUEST);
        var heard := Listen(image, base, all, Asking(attempt), 0x11);
        if heard.Broken? { return Stopped(Returned(false), true); }
        if heard.Got? {
          if heard.payload[0] != 0x00 {
            Over(image, base, all, Returned(false), true);
            return Stopped(Returned(false), false);
          }
          return Continue;
        }
        attempt := attempt + 1;
      }
      r := Continue;
    }

    /** Step 3 of run: the metadata, up to five times; packing a length beyond four bytes raises an error. */
    method DescribeFirmware(image: seq<byte>, ghost base: seq<seq<byte>>, ghost all: seq<Event>)
      returns (r: Progress, chunk: nat)
      requires InStep(image, base, all, Describe(image), true)
      modifies this, ser`incoming, ser`sent
      ensures r.Stopped? ==> Halted(image, base, all, r)
      ensures r.Continue? ==> InStep(image, base, all, Sending(chunk, 0, 1), true)
    {
      hide InStep, Halted, Frame, Metadata, TotalBlocks, ChunkSize, BlockData;
      chunk := 0;
      if |image| >= 0x1_0000_0000 {
        Over(image, base, all, Raised, true);
        return Stopped(Raised, false), 0;
      }
      var attempt := 1;
      while attempt <= 5
        invariant 1 <= attempt <= 6
        invariant InStep(image, base, all, if attempt <= 5 then Describing(attempt) else Ended(Returned(false)), true)
      {
        PhaseIsWellFormed(image, base, all, Describing(attempt), true);
        SendOwed(image, base, all, Describing(attempt), 0x12, Metadata(image));
        var heard := Listen(image, base, all, Describing(attempt), 0x12);
        if heard.Broken? { return Stopped(Returned(false), true), 0; }
        if !heard.Got? {
          attempt := attempt + 1;
          continue;
        }
        var resp := heard.payload;
        var status := resp[0];
        if status == 0x00 {
          Over(image, base, all, Returned(true), true);
          return Stopped(Returned(true), false), 0;
        }
        if status == 0x01 {
          attempt := attempt + 1;
          continue;
        }
        if status == 0x02 {
          Over(image, base, all, Returned(true), true);
          return Stopped(Returned(true), false), 0;
        }
        if status == 0x06 || status == 0x08 {
          var size := ChunkSize(resp[1]);
          if size.Some? && U16(resp[2], resp[3]) == 0 && TotalBlocks(|image|, size.value) <= 0xFFFF {
            return Continue, size.value;
          }
        }
        Over(image, base, all, Returned(false), true);
        return Stopped(Returned(false), false), 0;
      }
      Over(image, base, all, Returned(false), true);
      r := Stopped(Returned(false), false);
    }

    /** One attempt at block idx: the frame, and replies until one decides or time is up. */
    method TryBlock(image: seq<byte>, ghost base: seq<seq<byte>>, ghost all: seq<Event>, chunk: nat, idx: nat,
                    ghost attempt: nat, data: seq<byte>) returns (r: Tried)
      requires InStep(image, base, all, Sending(chunk, idx, attempt), true)
      requires OtaSender.WellFormed(image, Sending(chunk, idx, attempt)) && data == BlockData(image, chunk, idx)
      modifies this, ser`incoming, ser`sent
      ensures r == Unplugged ==> Halted(image, base, all, Stopped(Returned(false), true))
      ensures r == Done ==> InStep(image, base, all, Advance(image, Sending(chunk, idx, attempt)), true)
      ensures r == NotDone ==> InStep(image, base, all, Retry(Sending(chunk, idx, attempt)), true)
    {
      hide InStep, Halted, Frame, TotalBlocks, BlockData;
      ghost var ph := Sending(chunk, idx, attempt);
      SendOwed(image, base, all, ph, 0x13, data);
      while true
        invariant InStep(image, base, all, ph, false)
        decreases 2 * |ser.incoming| + |rxBuffer|
      {
        var late: bool := *;
        if late {
          GiveUp(image, base, all, ph);
          return NotDone;
        }
        var heard := Listen(image, base, all, ph, 0x13);
        if heard.Broken? { return Unplugged; }
        if !heard.Got? { return NotDone; }
        var resp := heard.payload;
        var status := resp[0];
        var requested := U16(resp[4], resp[5]);
        if resp[3] != image[12] || resp[6..16] != image[..10] { continue; }
        if status == 0x00 {
          if requested == idx + 1 { return Done; }
          if requested <= idx { continue; }
          return NotDone;
        }
        if status == 0x02 {
          if requested == idx + 1 { return Done; }
          continue;
        }
        return NotDone;
      }
      r := NotDone;
    }

    /** The time for replies is up before another one is asked for. */
    ghost method GiveUp(image: seq<byte>, base: seq<seq<byte>>, all: seq<Event>, ph: Phase)
      requires InStep(image, base, all, ph, false)
      modifies this`inputs
      ensures InStep(image, base, all, Next(image, ph, Quiet), Next(image, ph, Quiet) != ph)
    {
      hide Sent, After, Fits, Emits, Next, OnTrack, Explained, BytesIn;
      assert consumed[|consumed|..] == [];
      Hear(image, base, all, ph, Quiet, consumed);
    }

    /** Up to three attempts at block idx. */
    method SendBlock(image: seq<byte>, ghost base: seq<seq<byte>>, ghost all: seq<Event>, chunk: nat, idx: nat,
                     data: seq<byte>) returns (r: Tried)
      requires InStep(image, base, all, Sending(chunk, idx, 1), true)
      requires OtaSender.WellFormed(image, Sending(chunk, idx, 1)) && data == BlockData(image, chunk, idx)
      modifies this, ser`incoming, ser`sent
      ensures r == Unplugged ==> Halted(image, base, all, Stopped(Returned(false), true))
      ensures r == Done ==> InStep(image, base, all, Advance(image, Sending(chunk, idx, 1)), true)
      ensures r == NotDone ==> Halted(image, base, all, Stopped(Returned(false), false))
    {
      hide InStep, Halted, TotalBlocks, BlockData;
      var attempt := 1;
      while attempt <= 3
        invariant 1 <= attempt <= 4
        invariant InStep(image, base, all,
                         if attempt <= 3 then Sending(chunk, idx, attempt) else Ended(Returned(false)), true)
      {
        r := TryBlock(image, base, all, chunk, idx, attempt, data);
        if r != NotDone { return; }
        attempt := attempt + 1;
      }
      Over(image, base, all, Returned(false), true);
      r := NotDone;
    }

    /** Step 4 of run: the blocks one after the other. */
    method TransferBlocks(image: seq<byte>, ghost base: seq<seq<byte>>, ghost all: seq<Event>, chunk: nat)
      returns (r: Progress)
      requires InStep(image, base, all, Sending(chunk, 0, 1), true)
      modifies this, ser`incoming, ser`sent
      ensures r.Stopped? ==> Halted(image, base, all, r)
      ensures r.Continue? ==> InStep(image, base, all, Checking(chunk), false)
    {
      hide InStep, Halted, Chunk, BlockData;
      PhaseIsWellFormed(image, base, all, Sending(chunk, 0, 1), true);
      var total := |image|;
      var totalBlocks := TotalBlocks(total, chunk);
      var offset, pktIdx := 0, 0;
      while offset < total
        invariant offset < total ==>
                    pktIdx < totalBlocks && offset == pktIdx * chunk
                    && InStep(image, base, all, Sending(chunk, pktIdx, 1), true)
        invariant offset >= total ==> InStep(image, base, all, Checking(chunk), true)
        decreases total - offset
      {
        var block := if offset + chunk <= total then image[offset..offset + chunk] else image[offset..];
        var blockCrc := Modbus.ModbusCrc16(block);
        var header := image[13..16] + image[12..13] + BigEndian(pktIdx) + BigEndian(totalBlocks)
          + [HiByte(blockCrc), LoByte(blockCrc)];
        BlockIs(image, chunk, pktIdx, offset);
        DataIs(image, chunk, pktIdx, header, block, blockCrc);
        var tried := SendBlock(image, base, all, chunk, pktIdx, header + block);
        match tried {
          case Unplugged => return Stopped(Returned(false), true);
          case NotDone => return Stopped(Returned(false), false);
          case Done =>
        }
        NextOffset(image, chunk, pktIdx, offset);
        offset := offset + |block|;
        pktIdx := pktIdx + 1;
      }
      PhaseIsWellFormed(image, base, all, Checking(chunk), true);
      r := Continue;
    }

    /** Steps 2 to 5 of run; `left` are the events not read yet when the result was checked. */
    method Upgrade(image: seq<byte>, known: Option<(nat, nat)>) returns (out: Outcome, ghost left: seq<Event>)
      requires |image| >= 22 && inputs == []
      requires Valid() && received == [] && consumed == []
      modifies this, ser`incoming, ser`sent
      ensures UpgradeResult(image, old(ser.sent), ser.sent, old(ser.incoming), inputs, out, known, left)
    {
      hide InStep, Halted, UpgradeResult, Checked;
      ghost var base, all := ser.sent, ser.incoming;
      Begin(image);
      var step := RequestUpgrade(image, base, all);
      if step.Stopped? {
        StoppedResult(image, base, all, step, known);
        return step.out, ser.incoming;
      }
      var chunk;
      step, chunk := DescribeFirmware(image, base, all);
      if step.Stopped? {
        StoppedResult(image, base, all, step, known);
        return step.out, ser.incoming;
      }
      step := TransferBlocks(image, base, all, chunk);
      if step.Stopped? {
        StoppedResult(image, base, all, step, known);
        return step.out, ser.incoming;
      }
      TransferredFacts(image, base, all, chunk);
      ghost var sent := ser.sent;
      left := ser.incoming;
      var ok := VerifyCompletion(known);
      out := Returned(ok);
      CheckedResult(image, base, ser.sent, all, sent, inputs, known, left);
    }

    lemma Begin(image: seq<byte>)
      requires |image| >= 22 && inputs == []
      requires Valid() && received == [] && consumed == []
      ensures InStep(image, ser.sent, ser.incoming, Asking(1), true)
    {
      hide OnTrack, Emits;
      RunStarts(image);
      NoBytes();
      assert ser.incoming[..0] == [];
    }

    lemma StoppedResult(image: seq<byte>, base: seq<seq<byte>>, all: seq<Event>, r: Progress, known: Option<(nat, nat)>)
      requires r.Stopped? && Halted(image, base, all, r)
      ensures UpgradeResult(image, base, ser.sent, all, inputs, r.out, known, ser.incoming)
    {
      hide Sent, After, Fits, Parsed, Checked;
    }

    lemma TransferredFacts(image: seq<byte>, base: seq<seq<byte>>, all: seq<Event>, chunk: nat)
      requires InStep(image, base, all, Checking(chunk), false)
      ensures Fits(image, inputs) && After(image, inputs) == Checking(chunk)
      ensures ser.sent == base + Sent(image, inputs)
      ensures |ser.incoming| <= |all| && all[|all| - |ser.incoming|..] == ser.incoming
      ensures Parsed(image, inputs, all[..|all| - |ser.incoming|])
    {
      hide Sent, After, Fits, OnTrack, Explained, BytesIn, Parsed;
      ParsedSoFar(image, inputs, all, ser.incoming, received, consumed, rxBuffer);
    }

    /** run: the upgrade of the device by the firmware package. */
    method Run(binData: seq<byte>) returns (out: Outcome, ghost left: seq<Event>)
      requires inputs == []
      modifies this, ser`incoming, ser`sent
      ensures RunResult(binData, old(ser.sent), ser.sent, old(ser.incoming), inputs, out, left)
    {
      hide UpgradeResult, OnTrack, ReadUpTo, VersionRead;
      out, left := Returned(false), [];
      if |binData| < 22 { return; }
      var payloadInfo := OtaPackage.LocateFirmwarePayload(binData);
      if payloadInfo.None? { return; }
      var known, broken := ReadAppVersion();
      if broken { return; }
      broken := EnterBootloader();
      if broken { return; }
      out, left := Upgrade(binData, known);
    }
  }

  /** What the upgrade did: it sent what the automaton sends for the inputs heard, and those are what it
      parsed out of the events before `left`. It ended as the automaton did, or failed because the port
      broke at the last event it read, while it waited for a reply; or, when all blocks were acknowledged,
      as the check of the version then made of `left` did. */
  ghost predicate UpgradeResult(image: seq<byte>, base: seq<seq<byte>>, after: seq<seq<byte>>, heard: seq<Event>,
                                inputs: seq<Input>, out: Outcome, known: Option<(nat, nat)>, left: seq<Event>)
  {
    && Fits(image, inputs)
    && |left| <= |heard| && heard[|heard| - |left|..] == left
    && Parsed(image, inputs, heard[..|heard| - |left|])
    && (|| (&& after == base + Sent(image, inputs)
            && (|| After(image, inputs) == Ended(out)
                || (out == Returned(false) && CutShort(heard, left) && Waits(After(image, inputs)))))
        || (&& After(image, inputs).Checking?
            && var check := Checked(left, known, 10);
               && out == Returned(check.ok)
               && after == base + Sent(image, inputs) + Repeat(VERSION_QUERY, check.queries)))
  }

  /** What a run did: nothing without a payload in the package; or else the version query, the jump into the
      bootloader and the upgrade, unless the port breaks before. */
  ghost predicate RunResult(package: seq<byte>, base: seq<seq<byte>>, after: seq<seq<byte>>, events: seq<Event>,
                            inputs: seq<Input>, out: Outcome, left: seq<Event>)
  {
    var version := ReadUpTo(events, 9);
    var jump := ReadUpTo(version.left, 8);
    if |package| < 22 || OtaPackage.IsFirst(package, None) then out == Returned(false) && after == base
    else if version.broken then out == Returned(false) && after == base + [VERSION_QUERY]
    else if jump.broken then out == Returned(false) && after == base + [VERSION_QUERY] + [ENTER_BOOTLOADER]
    else UpgradeResult(package, base + [VERSION_QUERY] + [ENTER_BOOTLOADER], after, jump.left, inputs, out,
                       VersionRead(version), left)
  }

  lemma CheckedResult(image: seq<byte>, base: seq<seq<byte>>, after: seq<seq<byte>>, all: seq<Event>,
                      sent: seq<seq<byte>>, inputs: seq<Input>, known: Option<(nat, nat)>, left: seq<Event>)
    requires Fits(image, inputs) && After(image, inputs).Checking?
    requires |left| <= |all| && all[|all| - |left|..] == left
    requires Parsed(image, inputs, all[..|all| - |left|])
    requires sent == base + Sent(image, inputs)
    requires after == sent + Repeat(VERSION_QUERY, Checked(left, known, 10).queries)
    ensures UpgradeResult(image, base, after, all, inputs, Returned(Checked(left, known, 10).ok), known, left)
  {
    hide Sent, After, Fits, Parsed, Checked;
  }

  // ---- reads of fixed size, and the check of the version -------------------------------------------------

  /** The bytes of one read, what it leaves, and whether the port broke. */
  datatype Read = Read(bytes: seq<byte>, left: seq<Event>, broken: bool)

  /** Up to n bytes, until there is a round without one. */
  function ReadUpTo(ev: seq<Event>, n: nat): Read
    decreases ev
  {
    if n == 0 || ev == [] then Read([], ev, false)
    else if !ev[0].Byte? then Read([], ev[1..], ev[0].Fault?)
    else
      var rest := ReadUpTo(ev[1..], n - 1);
      rest.(bytes := [ev[0].b] + rest.bytes)
  }

  function Preceded(bytes: seq<byte>, read: Read): Read { read.(bytes := bytes + read.bytes) }

  lemma ReadNone(ev: seq<Event>)
    ensures ReadUpTo(ev, 0) == Read([], ev, false)
  {}

  lemma ReadNext(ev: seq<Event>, n: nat, bytes: seq<byte>)
    requires n > 0
    ensures ev == [] ==> ReadUpTo(ev, n) == Read([], ev, false)
    ensures ev != [] && !ev[0].Byte? ==> ReadUpTo(ev, n) == Read([], ev[1..], ev[0].Fault?)
    ensures ev != [] && ev[0].Byte? ==>
              Preceded(bytes, ReadUpTo(ev, n)) == Preceded(bytes + [ev[0].b], ReadUpTo(ev[1..], n - 1))
  {}

  lemma {:induction false} ReadUpToAtMost(ev: seq<Event>, n: nat)
    ensures |ReadUpTo(ev, n).bytes| <= n
    decreases ev
  {
    if n > 0 && ev != [] && ev[0].Byte? { ReadUpToAtMost(ev[1..], n - 1); }
  }

  function VersionRead(read: Read): Option<(nat, nat)> {
    if read.broken then None else VersionIn(read.bytes)
  }

  /** The outcome of the check, and how many queries it took. */
  datatype Check = Check(ok: bool, queries: nat)

  function Checked(ev: seq<Event>, known: Option<(nat, nat)>, attempts: nat): Check
    decreases attempts
  {
    var read := ReadUpTo(ev, 9);
    if attempts == 0 then Check(false, 0)
    else if read.broken then Check(false, 1)
    else if VersionRead(read).Some? then Check(known != VersionRead(read), 1)
    else
      var rest := Checked(read.left, known, attempts - 1);
      rest.(queries := 1 + rest.queries)
  }

  /** Before the given attempt, the check of these events is down to the check of what is left of them. */
  predicate SameCheck(events: seq<Event>, left: seq<Event>, known: Option<(nat, nat)>, attempt: nat)
    requires 1 <= attempt <= 11
  {
    var rest := Checked(left, known, 11 - attempt);
    Checked(events, known, 10) == Check(rest.ok, attempt - 1 + rest.queries)
  }

  lemma CheckStarts(events: seq<Event>, known: Option<(nat, nat)>)
    ensures SameCheck(events, events, known, 1)
  {
    hide Checked;
  }

  lemma CheckOnce(events: seq<Event>, left: seq<Event>, known: Option<(nat, nat)>, attempt: nat)
    requires 1 <= attempt <= 10 && SameCheck(events, left, known, attempt)
    ensures var read := ReadUpTo(left, 9);
      if read.broken then Checked(events, known, 10) == Check(false, attempt)
      else if VersionRead(read).Some? then Checked(events, known, 10) == Check(known != VersionRead(read), attempt)
      else SameCheck(events, read.left, known, attempt + 1)
  {
    hide Checked, ReadUpTo, VersionRead;
    CheckedNext(left, known, 11 - attempt);
  }

  lemma CheckedNext(left: seq<Event>, known: Option<(nat, nat)>, attempts: nat)
    requires attempts > 0
    ensures var read := ReadUpTo(left, 9);
      if read.broken then Checked(left, known, attempts) == Check(false, 1)
      else if VersionRead(read).Some? then Checked(left, known, attempts) == Check(known != VersionRead(read), 1)
      else
        var rest := Checked(read.left, known, attempts - 1);
        Checked(left, known, attempts) == Check(rest.ok, 1 + rest.queries)
  {
    hide ReadUpTo, VersionRead;
  }

  lemma CheckEnds(events: seq<Event>, left: seq<Event>, known: Option<(nat, nat)>)
    requires SameCheck(events, left, known, 11)
    ensures Checked(events, known, 10) == Check(false, 10)
  {
    CheckedZero(left, known);
    hide Checked;
  }

  lemma CheckedZero(left: seq<Event>, known: Option<(nat, nat)>)
    ensures Checked(left, known, 0) == Check(false, 0)
  {
    hide ReadUpTo, VersionRead;
  }

  /** The reply to the n-th query, when each query is answered by what is left after the one before. */
  function ReplyAt(ev: seq<Event>, n: nat): Read
    decreases n
  {
    if n == 0 then ReadUpTo(ev, 9) else ReplyAt(ReadUpTo(ev, 9).left, n - 1)
  }

  /** The n-th reply is the first with a version, and the port held until then. */
  predicate AnswersAt(ev: seq<Event>, n: nat) {
    && VersionRead(ReplyAt(ev, n)).Some?
    && forall i: nat | i < n :: !ReplyAt(ev, i).broken && VersionRead(ReplyAt(ev, i)).None?
  }

  /** It is not the version known before. */
  predicate Recovers(ev: seq<Event>, known: Option<(nat, nat)>, n: nat) {
    AnswersAt(ev, n) && VersionRead(ReplyAt(ev, n)) != known
  }

  /** The check succeeds if and only if one of the queries is answered, and the first answer is not the
      version known before; and it stops at that answer. */
  lemma {:induction false} CheckedIff(ev: seq<Event>, known: Option<(nat, nat)>, attempts: nat)
    ensures Checked(ev, known, attempts).ok <==> exists n: nat | n < attempts :: Recovers(ev, known, n)
    ensures Checked(ev, known, attempts).queries <= attempts
    ensures forall n: nat | n < attempts && AnswersAt(ev, n) :: Checked(ev, known, attempts).queries == n + 1
    decreases attempts
  {
    hide ReadUpTo, VersionRead, AnswersAt, ReplyAt;
    if attempts > 0 {
      var read := ReadUpTo(ev, 9);
      AnswersFirst(ev);
      CheckedIff(read.left, known, attempts - 1);
      forall n: nat | AnswersAt(ev, n) && n > 0
        ensures !read.broken && VersionRead(read).None? && AnswersAt(read.left, n - 1)
        ensures Recovers(ev, known, n) ==> Recovers(read.left, known, n - 1)
      {
        AnswersLater(ev, n - 1);
      }
      if !read.broken && VersionRead(read).None? {
        forall n: nat | Recovers(read.left, known, n) ensures Recovers(ev, known, n + 1) {
          AnswersLater(ev, n);
        }
      } else if Recovers(ev, known, 0) {
        assert Checked(ev, known, attempts).ok;
      }
    }
  }

  lemma AnswersFirst(ev: seq<Event>)
    ensures ReplyAt(ev, 0) == ReadUpTo(ev, 9)
    ensures AnswersAt(ev, 0) <==> VersionRead(ReadUpTo(ev, 9)).Some?
    ensures ReadUpTo(ev, 9).broken ==> VersionRead(ReadUpTo(ev, 9)).None?
  {}

  lemma AnswersLater(ev: seq<Event>, n: nat)
    ensures var left := ReadUpTo(ev, 9).left;
      && ReplyAt(ev, n + 1) == ReplyAt(left, n)
      && (AnswersAt(ev, n + 1)
          <==> !ReplyAt(ev, 0).broken && VersionRead(ReplyAt(ev, 0)).None? && AnswersAt(left, n))
  {
    hide ReadUpTo, VersionRead;
    var left := ReadUpTo(ev, 9).left;
    if AnswersAt(ev, n + 1) {
      forall i: nat | i < n ensures !ReplyAt(left, i).broken && VersionRead(ReplyAt(left, i)).None? {
        assert ReplyAt(ev, i + 1) == ReplyAt(left, i);
      }
    }
    if !ReplyAt(ev, 0).broken && VersionRead(ReplyAt(ev, 0)).None? && AnswersAt(left, n) {
      forall i: nat | i < n + 1 ensures !ReplyAt(ev, i).broken && VersionRead(ReplyAt(ev, i)).None? {
        if i > 0 { assert ReplyAt(ev, i) == ReplyAt(left, i - 1); }
      }
    }
  }

  // ---- what was heard ----------------------------------------------------------------------------------

  function HeardAs(i: Input): Heard { match i case Reply(p) => Got(p) case Quiet => Silent }

  function InputOf(h: Heard): Input
    requires !h.Broken?
  {
    if h.Got? then Reply(h.payload) else Quiet
  }

  /** The responses taken out of the stream explain the inputs: one after the other, each input is the first
      response to the command that was out, or Quiet when there was none; other responses are late. */
  ghost predicate Explained(image: seq<byte>, inputs: seq<Input>, taken: seq<Response>)
    requires Fits(image, inputs)
    decreases |inputs|
  {
    if inputs == [] then taken == []
    else
      var last := |inputs| - 1;
      exists k | 0 <= k <= |taken| ::
        && Explained(image, inputs[..last], taken[..k])
        && TakenFor(Command(After(image, inputs[..last])), taken[k..], HeardAs(inputs[last]))
  }

  /** The inputs are explained by the frames parsed out of these events; what was taken after the last of
      them, before the port broke, were late responses to other commands. */
  ghost predicate Parsed(image: seq<byte>, inputs: seq<Input>, read: seq<Event>)
    requires Fits(image, inputs)
  {
    exists taken, buffer, k | OnTrack(BytesIn(read), taken, buffer) && 0 <= k <= |taken| ::
      Explained(image, inputs, taken[..k]) && TakenFor(Command(After(image, inputs)), taken[k..], Silent)
  }

  lemma ExplainedMore(image: seq<byte>, inputs: seq<Input>, i: Input, before: seq<Response>, taken: seq<Response>)
    requires Fits(image, inputs) && Fits(image, inputs + [i]) && Explained(image, inputs, before)
    requires before <= taken && TakenFor(Command(After(image, inputs)), taken[|before|..], HeardAs(i))
    ensures Explained(image, inputs + [i], taken)
  {
    hide TakenFor, Fits, After;
    assert (inputs + [i])[..|inputs|] == inputs;
    assert taken[..|before|] == before;
  }

  lemma ParsedSoFar(image: seq<byte>, inputs: seq<Input>, all: seq<Event>, left: seq<Event>, received: seq<byte>,
                    taken: seq<Response>, buffer: seq<byte>)
    requires Fits(image, inputs) && |left| <= |all| && received == BytesIn(all[..|all| - |left|])
    requires OnTrack(received, taken, buffer) && Explained(image, inputs, taken)
    ensures Parsed(image, inputs, all[..|all| - |left|])
  {
    hide OnTrack, Explained, BytesIn, Fits;
    assert taken[..|taken|] == taken;
  }

  lemma ParsedWhenBroken(image: seq<byte>, inputs: seq<Input>, all: seq<Event>, left: seq<Event>,
                         received: seq<byte>, before: seq<Response>, taken: seq<Response>, buffer: seq<byte>)
    requires Fits(image, inputs) && |left| <= |all| && received == BytesIn(all[..|all| - |left|])
    requires OnTrack(received, taken, buffer) && before <= taken && Explained(image, inputs, before)
    requires TakenFor(Command(After(image, inputs)), taken[|before|..], Broken)
    ensures Parsed(image, inputs, all[..|all| - |left|])
  {
    hide OnTrack, Explained, BytesIn, Fits;
    assert taken[..|before|] == before;
  }

  /** A phase that waits for a reply. */
  predicate Waits(ph: Phase) { ph.Asking? || ph.Describing? || ph.Sending? }

  /** The last event that was read, of those before `left`, is a broken port. */
  predicate CutShort(all: seq<Event>, left: seq<Event>) {
    |left| < |all| && all[|all| - |left| - 1].Fault?
  }

  /** Nothing more comes, now or at all. */
  predicate Stalled(all: seq<Event>, left: seq<Event>) {
    left == [] || (|left| < |all| && !all[|all| - |left| - 1].Byte?)
  }

  /** The clock is read often enough before the deadline for all there is to be read. */
  predicate Patient(patience: nat, incoming: seq<Event>, buffer: seq<byte>) {
    patience > 2 * (2 * |incoming| + |buffer| + 1)
  }

  /** Why a call ended without a response: the port broke at the last event read, or nothing came, or the time
      was up; and but for the time, nothing more can be made of the buffer. */
  predicate Ends(r: Heard, all: seq<Event>, left: seq<Event>, buffer: seq<byte>, patient: bool) {
    match r
    case Got(_) => true
    case Broken => CutShort(all, left) && Settled(buffer)
    case Silent => patient ==> Stalled(all, left) && Settled(buffer)
  }

  /** These bytes come first, without a pause. */
  predicate Arrives(ev: seq<Event>, f: seq<byte>) {
    |f| <= |ev| && forall i | 0 <= i < |f| :: ev[i] == Event.Byte(f[i])
  }

  lemma {:induction false} BytesThatArrive(ev: seq<Event>, f: seq<byte>, n: nat)
    requires Arrives(ev, f) && n <= |ev|
    ensures n <= |f| ==> BytesIn(ev[..n]) == f[..n]
    ensures n > |f| ==> f <= BytesIn(ev[..n])
    decreases n
  {
    if n > 0 {
      BytesThatArrive(ev, f, n - 1);
      assert ev[..n][..n - 1] == ev[..n - 1];
    }
  }

  lemma ReplyIsHeard(cmd: byte, payload: seq<byte>, all: seq<Event>, left: seq<Event>, received: seq<byte>,
                     consumed: seq<Response>, buffer: seq<byte>, r: Heard)
    requires IsReply(cmd, payload) && Arrives(all, Frame(cmd, payload))
    requires ReadSoFar(all, left, [], received) && TookFor(cmd, [], consumed, r) && OnTrack(received, consumed, buffer)
    requires Ends(r, all, left, buffer, true)
    ensures r == Got(payload)
  {
    hide Frame, FrameAt, BytesIn, OnTrack, Settled;
    var f, n := Frame(cmd, payload), |all| - |left|;
    BytesThatArrive(all, f, n);
    assert received == BytesIn(all[..n]);
    ReplyComesFirst(cmd, payload, received, if n < |f| then f[n..] else [], consumed, buffer);
    assert consumed[0..] == consumed;
    if consumed == [] {
      assert n >= |f|;
      ReplyIsNotSettled(cmd, payload, received);
    }
  }

  lemma ReplyIsNotSettled(cmd: byte, payload: seq<byte>, s: seq<byte>)
    requires IsReply(cmd, payload) && Frame(cmd, payload) <= s
    ensures !Settled(s)
  {
    hide Frame, FrameAt, Frames, Dead;
    var f := Frame(cmd, payload);
    ReplyIsParsed(cmd, payload, s[|f|..]);
    assert f + s[|f|..] == s;
  }

  /** When the stream begins with a reply, that reply is the first frame consumed, or the buffer still holds
      the whole stream. */
  lemma ReplyComesFirst(cmd: byte, payload: seq<byte>, received: seq<byte>, ext: seq<byte>, consumed: seq<Response>,
                        buffer: seq<byte>)
    requires IsReply(cmd, payload) && OnTrack(received, consumed, buffer)
    requires Frame(cmd, payload) <= received + ext
    ensures if consumed == [] then buffer == received else consumed[0] == Response(cmd, payload)
  {
    hide Frame, FrameAt, Frames;
    var f, whole := Frame(cmd, payload), received + ext;
    ReplyIsParsed(cmd, payload, whole[|f|..]);
    assert f + whole[|f|..] == whole;
    if consumed != [] {
      assert Frames(whole) == consumed + Frames(buffer + ext);
      assert (consumed + Frames(buffer + ext))[0] == consumed[0];
    }
  }

  lemma CutShortStays(all: seq<Event>, was: seq<Event>, left: seq<Event>)
    requires |was| <= |all| && all[|all| - |was|..] == was && CutShort(was, left)
    ensures CutShort(all, left)
  {}

  /** The events read by one call continue those read before. */
  lemma ReadFurther(all: seq<Event>, was: seq<Event>, read: seq<Event>, left: seq<Event>)
    requires |was| <= |all| && all[|all| - |was|..] == was && was == read + left
    ensures |left| <= |all| && all[|all| - |left|..] == left
    ensures BytesIn(all[..|all| - |left|]) == BytesIn(all[..|all| - |was|]) + BytesIn(read)
  {
    BytesInConcat(all[..|all| - |was|], read);
    assert all[..|all| - |left|] == all[..|all| - |was|] + read;
  }

  lemma {:induction false} BytesInConcat(a: seq<Event>, b: seq<Event>)
    ensures BytesIn(a + b) == BytesIn(a) + BytesIn(b)
    decreases |b|
  {
    if b == [] {
      assert a + b == a;
    } else {
      var last := |b| - 1;
      assert (a + b)[..|a + b| - 1] == a + b[..last];
      BytesInConcat(a, b[..last]);
    }
  }

  lemma KnownIsAdmissible(ph: Phase, heard: Heard)
    requires !heard.Broken? && (ph.Asking? || ph.Describing? || ph.Sending?)
    requires heard.Got? ==> Known(Command(ph), |heard.payload|)
    ensures Admissible(ph, InputOf(heard))
  {}

  /** For every behaviour of the device: the frames sent through send_frame are at most 3 + 5 + 3 times the
      number of blocks; and success means that the device granted the request or kept silent to it, and then
      reported 00 or 02 to the metadata, or acknowledged every block and came back with a version other than
      the known one. After a transfer that last condition decides. */
  lemma UpgradeIsSafe(image: seq<byte>, base: seq<seq<byte>>, after: seq<seq<byte>>, heard: seq<Event>,
                      inputs: seq<Input>, out: Outcome, known: Option<(nat, nat)>, left: seq<Event>)
    requires UpgradeResult(image, base, after, heard, inputs, out, known, left)
    ensures Fits(image, inputs) && OtaSafety.Affordable(image, inputs, |Sent(image, inputs)|)
    ensures out == Returned(true) ==>
              && OtaSafety.Granted(inputs)
              && (|| OtaSafety.Skipped(image, inputs)
                  || (&& (exists n: nat | n < 10 :: Recovers(left, known, n))
                      && exists chunk :: 0 < chunk && OtaSafety.Opened(image, inputs, chunk)
                          && forall k | 0 <= k < TotalBlocks(|image|, chunk) ::
                               OtaSafety.Acknowledged(image, inputs, chunk, k)))
    ensures After(image, inputs).Checking? ==>
              (out == Returned(true) <==> exists n: nat | n < 10 :: Recovers(left, known, n))
  {
    hide Sent, Parsed, OtaSafety.Opened, OtaSafety.Acknowledged, OtaSafety.Skipped, TotalBlocks, Recovers, Checked;
    hide OtaSafety.Granted, OtaSafety.AllQuiet;
    OtaSafety.SendsAreBounded(image, inputs);
    OtaSafety.EveryPhaseIsJustified(image, inputs);
    OtaSafety.OnlyWhenGranted(image, inputs);
    CheckedIff(left, known, 10);
  }

  /** An upgrade of an honest bootloader: when what the program heard is what an updater can hear over a channel
      that loses, delays, repeats and reorders, and the program returns true, then the bootloader holds the
      firmware, byte for byte, unless it said itself that there is nothing to do. */
  lemma UpgradeWritesFirmware(image: seq<byte>, base: seq<seq<byte>>, after: seq<seq<byte>>, heard: seq<Event>,
                              inputs: seq<Input>, out: Outcome, known: Option<(nat, nat)>, left: seq<Event>,
                              run: seq<OtaLink.Link>)
    requires UpgradeResult(image, base, after, heard, inputs, out, known, left)
    requires OtaLink.IsRun(image, run) && OtaLink.HearsAlong(image, run, inputs)
    ensures out == Returned(true) ==> OtaSafety.Skipped(image, inputs) || run[|run| - 1].device.image == image
    ensures After(image, inputs).Checking? ==> run[|run| - 1].device.image == image
  {
    hide Sent, Parsed, OtaSafety.Skipped, OtaSafety.Opened, OtaSafety.Acknowledged, TotalBlocks, Checked;
    hide OtaLink.IsRun, OtaLink.HearsAlong;
    OtaSafety.EveryPhaseIsJustified(image, inputs);
    OtaLink.CheckMeansWritten(image, run, inputs);
  }

  lemma RunStarts(image: seq<byte>)
    requires |image| >= 22
    ensures Fits(image, []) && After(image, []) == Asking(1) && Sent(image, []) == Emits(image, Asking(1))
  {}

  lemma BlockIs(image: seq<byte>, chunk: nat, k: nat, offset: nat)
    requires offset == k * chunk <= |image|
    ensures Chunk(image, chunk, k)
         == if offset + chunk <= |image| then image[offset..offset + chunk] else image[offset..]
  {}

  lemma DataIs(image: seq<byte>, chunk: nat, k: nat, header: seq<byte>, block: seq<byte>, crc: bv16)
    requires |image| >= 22 && 0 < chunk <= 1024 && k < TotalBlocks(|image|, chunk) <= 0xFFFF
    requires k * chunk <= |image|
    requires block == Chunk(image, chunk, k) && crc == Modbus.Crc(block)
    requires header == image[13..16] + image[12..13] + BigEndian(k) + BigEndian(TotalBlocks(|image|, chunk))
                       + [HiByte(crc), LoByte(crc)]
    ensures header + block == BlockData(image, chunk, k)
  {
    hide Modbus.Crc, Chunk, TotalBlocks, BigEndian, HiByte, LoByte;
  }

  lemma NextOffset(image: seq<byte>, chunk: nat, k: nat, offset: nat)
    requires 0 < chunk && k < TotalBlocks(|image|, chunk) && offset == k * chunk < |image|
    ensures var next := offset + |Chunk(image, chunk, k)|;
      && offset < next <= |image|
      && (k + 1 < TotalBlocks(|image|, chunk) ==> next == (k + 1) * chunk < |image|)
      && (k + 1 == TotalBlocks(|image|, chunk) ==> next == |image|)
  {
    OtaSafety.BlockLength(image, chunk, k);
    OtaSafety.LastBlockEnds(|image|, chunk);
    assert (k + 1) * chunk == k * chunk + chunk;
    if k + 1 < TotalBlocks(|image|, chunk) { BlockStart(image, chunk, k + 1); }
  }

  /** How an attempt at a block ends. */
  datatype Tried = Done | NotDone | Unplugged

  /** How a step of run ends: on to the next, or out of run with a result. */
  datatype Progress = Continue | Stopped(out: Outcome, broken: bool)

  const ENTER_BOOTLOADER: seq<byte> := [0x01, 0x06, 0xA9, 0x04, 0x00, 0x01, 0x28, 0x57]
  const VERSION_QUERY: seq<byte> := [0x01, 0x03, 0x90, 0x26, 0x00, 0x02, 0x08, 0xC0]

  /** Both are Modbus requests with a good CRC: write 1 to register A904, and read two registers from 9026. */
  lemma CommandsAreRequests()
    ensures ENTER_BOOTLOADER[..6] == [0x01, 0x06] + BigEndian(0xA904) + BigEndian(1)
    ensures VERSION_QUERY[..6] == [0x01, 0x03] + BigEndian(0x9026) + BigEndian(2)
    ensures Modbus.Checks(ENTER_BOOTLOADER[..6], ENTER_BOOTLOADER[6], ENTER_BOOTLOADER[7])
    ensures Modbus.Checks(VERSION_QUERY[..6], VERSION_QUERY[6], VERSION_QUERY[7])
  {
    hide Modbus.Crc, BigEndian, Join;
    CommandWords();
    EnterBootloaderCrc();
    VersionQueryCrc();
    JoinedCrcs();
    assert ENTER_BOOTLOADER[..6] == [] + [0x01] + [0x06] + [0xA9] + [0x04] + [0x00] + [0x01];
    assert VERSION_QUERY[..6] == [] + [0x01] + [0x03] + [0x90] + [0x26] + [0x00] + [0x02];
  }

  lemma JoinedCrcs()
    ensures Join(0x57, 0x28) == 0x5728 && Join(0xC0, 0x08) == 0xC008
  {}

  lemma CommandWords()
    ensures BigEndian(0xA904) == [0xA9, 0x04] && BigEndian(1) == [0x00, 0x01]
    ensures BigEndian(0x9026) == [0x90, 0x26] && BigEndian(2) == [0x00, 0x02]
  {
    hide BigEndian;
    EncodeDecode(0xA9, 0x04);
    EncodeDecode(0x00, 0x01);
    EncodeDecode(0x90, 0x26);
    EncodeDecode(0x00, 0x02);
  }

  lemma EnterBootloaderCrc()
    ensures Modbus.Crc([] + [0x01] + [0x06] + [0xA9] + [0x04] + [0x00] + [0x01]) == 0x5728
  {
    hide Modbus.Crc;
    Modbus.CrcGrows([], 0);
    Modbus.CrcNext([], 0x01, 0xFFFF, 0x807E);
    Modbus.CrcNext([] + [0x01], 0x06, 0x807E, 0x2280);
    Modbus.CrcNext([] + [0x01] + [0x06], 0xA9, 0x2280, 0xDEE3);
    Modbus.CrcNext([] + [0x01] + [0x06] + [0xA9], 0x04, 0xDEE3, 0x4A9E);
    Modbus.CrcNext([] + [0x01] + [0x06] + [0xA9] + [0x04], 0x00, 0x4A9E, 0xA8CB);
    Modbus.CrcNext([] + [0x01] + [0x06] + [0xA9] + [0x04] + [0x00], 0x01, 0xA8CB, 0x5728);
  }

  lemma VersionQueryCrc()
    ensures Modbus.Crc([] + [0x01] + [0x03] + [0x90] + [0x26] + [0x00] + [0x02]) == 0xC008
  {
    hide Modbus.Crc;
    Modbus.CrcGrows([], 0);
    Modbus.CrcNext([], 0x01, 0xFFFF, 0x807E);
    Modbus.CrcNext([] + [0x01], 0x03, 0x807E, 0x2140);
    Modbus.CrcNext([] + [0x01] + [0x03], 0x90, 0x2140, 0x9C20);
    Modbus.CrcNext([] + [0x01] + [0x03] + [0x90], 0x26, 0x9C20, 0x021C);
    Modbus.CrcNext([] + [0x01] + [0x03] + [0x90] + [0x26], 0x00, 0x021C, 0xC903);
    Modbus.CrcNext([] + [0x01] + [0x03] + [0x90] + [0x26] + [0x00], 0x02, 0xC903, 0xC008);
  }

  /** The software and hardware version in a reply of the APP. */
  function VersionIn(reply: seq<byte>): Option<(nat, nat)> {
    if |reply| == 9 && reply[..3] == [0x01, 0x03, 0x04] && Modbus.Checks(reply[..7], reply[7], reply[8])
    then Some((U16(reply[3], reply[4]), U16(reply[5], reply[6])))
    else None
  }

  /** The reply of an APP with these versions. */
  function VersionReply(software: nat, hardware: nat): (s: seq<byte>)
    requires software < 0x1_0000 && hardware < 0x1_0000
    ensures |s| == 9
  {
    var head := [0x01, 0x03, 0x04] + BigEndian(software) + BigEndian(hardware);
    head + Modbus.WireBytes(Modbus.Crc(head))
  }

  /** A version is read from that reply, and from no other bytes. */
  lemma VersionIff(reply: seq<byte>, software: nat, hardware: nat)
    requires software < 0x1_0000 && hardware < 0x1_0000
    ensures VersionIn(reply) == Some((software, hardware)) <==> reply == VersionReply(software, hardware)
  {
    hide BigEndian, U16, Modbus.Checks, Modbus.Crc, Modbus.WireBytes;
    DecodeEncode(software);
    DecodeEncode(hardware);
    var head := [0x01, 0x03, 0x04] + BigEndian(software) + BigEndian(hardware);
    var w := Modbus.WireBytes(Modbus.Crc(head));
    if reply == head + w {
      assert reply[..7] == head && [reply[7], reply[8]] == w;
      Modbus.ChecksIff(head, reply[7], reply[8]);
    }
    if VersionIn(reply) == Some((software, hardware)) {
      EncodeDecode(reply[3], reply[4]);
      EncodeDecode(reply[5], reply[6]);
      assert reply[..7] == reply[..3] + [reply[3], reply[4]] + [reply[5], reply[6]];
      Modbus.ChecksIff(head, reply[7], reply[8]);
      assert reply == reply[..7] + [reply[7], reply[8]];
    }
  }

  /** A reply that comes at once is read whole, and its version with it. */
  lemma VersionIsHeard(ev: seq<Event>, software: nat, hardware: nat)
    requires software < 0x1_0000 && hardware < 0x1_0000 && Arrives(ev, VersionReply(software, hardware))
    ensures ReadUpTo(ev, 9) == Read(VersionReply(software, hardware), ev[9..], false)
    ensures VersionRead(ReadUpTo(ev, 9)) == Some((software, hardware))
  {
    hide VersionReply, VersionIn;
    ArrivedIsRead(ev, VersionReply(software, hardware));
    VersionIff(VersionReply(software, hardware), software, hardware);
  }

  lemma {:induction false} ArrivedIsRead(ev: seq<Event>, f: seq<byte>)
    requires Arrives(ev, f)
    ensures ReadUpTo(ev, |f|) == Read(f, ev[|f|..], false)
    decreases f
  {
    if f != [] {
      ArrivedIsRead(ev[1..], f[1..]);
      assert [f[0]] + f[1..] == f;
    }
  }

  lemma OneInputMore(image: seq<byte>, inputs: seq<Input>, i: Input)
    requires Fits(image, inputs) && Admissible(After(image, inputs), i)
    ensures Fits(image, inputs + [i])
    ensures var ph, ph' := After(image, inputs), After(image, inputs + [i]);
      && ph' == Next(image, ph, i)
      && Sent(image, inputs + [i]) == Sent(image, inputs) + if ph' == ph then [] else Emits(image, ph')
  {
    hide Emits, Next, Admissible;
    assert (inputs + [i])[..|inputs|] == inputs;
  }

  function Repeat(f: seq<byte>, n: nat): seq<seq<byte>> {
    if n == 0 then [] else Repeat(f, n - 1) + [f]
  }

  lemma RepeatNone(f: seq<byte>)
    ensures Repeat(f, 0) == []
  {}

  lemma RepeatOnce(f: seq<byte>, n: nat)
    requires n > 0
    ensures Repeat(f, n) == Repeat(f, n - 1) + [f]
  {}

  datatype Verdict = Dropped | Took(response: Response) | NeedsMore

  /** The frames taken by one call: those skipped as late, and the one that was returned. */
  predicate TakenFor(cmd: byte, taken: seq<Response>, r: Heard) {
    if r.Got? then
      && taken != [] && taken[|taken| - 1] == Response(cmd, r.payload)
      && forall i | 0 <= i < |taken| - 1 :: taken[i].cmd != cmd
    else forall i | 0 <= i < |taken| :: taken[i].cmd != cmd
  }

  /** The same, of what one call added to what was consumed before. */
  predicate TookFor(cmd: byte, before: seq<Response>, after: seq<Response>, r: Heard) {
    |before| <= |after| && after[..|before|] == before && TakenFor(cmd, after[|before|..], r)
  }

  lemma NothingTaken(cmd: byte, before: seq<Response>)
    ensures TookFor(cmd, before, before, Silent) && TookFor(cmd, before, before, Broken)
  {}

  lemma OneTaken(cmd: byte, before: seq<Response>, after: seq<Response>, response: Response)
    requires TookFor(cmd, before, after, Silent)
    ensures var more := after + [response];
      if response.cmd == cmd then TookFor(cmd, before, more, Got(response.payload))
      else TookFor(cmd, before, more, Silent) && TookFor(cmd, before, more, Broken)
  {
    assert (after + [response])[|before|..] == after[|before|..] + [response];
  }

  lemma NoBytes()
    ensures BytesIn([]) == []
  {}

  /** The events up to `left` were read, and their bytes received. */
  predicate ReadSoFar(all: seq<Event>, left: seq<Event>, before: seq<byte>, received: seq<byte>) {
    && |left| <= |all| && all[|all| - |left|..] == left
    && received == before + BytesIn(all[..|all| - |left|])
  }

  lemma NothingReadYet(all: seq<Event>, before: seq<byte>)
    ensures ReadSoFar(all, all, before, before)
  {
    NoBytes();
    assert all[..0] == [];
  }

  lemma ReadOne(all: seq<Event>, left: seq<Event>, before: seq<byte>, received: seq<byte>)
    requires ReadSoFar(all, left, before, received)
    ensures |left| <= |all|
    ensures left != [] ==>
              && (left[0].Byte? ==> ReadSoFar(all, left[1..], before, received + [left[0].b]))
              && (!left[0].Byte? ==> ReadSoFar(all, left[1..], before, received))
              && (left[0].Fault? ==> CutShort(all, left[1..]))
              && (!left[0].Byte? ==> Stalled(all, left[1..]))
    ensures left == [] ==> Stalled(all, left)
  {
    if left != [] {
      var k := |all| - |left|;
      assert all[k] == left[0] && all[k + 1..] == left[1..];
      assert all[..k + 1][..k] == all[..k];
    }
  }

  lemma UnknownIsDead(s: seq<byte>)
    requires |s| >= 5 && !Known(s[2], U16(s[3], s[4]))
    ensures Dead(s, 0)
  {
    hide Known, U16;
  }

  /** A whole candidate at the front: a frame, or dead. */
  lemma Judge(s: seq<byte>, size: nat)
    requires |s| >= 5 && s[0] == 0x01 && s[1] == 0x45 && Known(s[2], U16(s[3], s[4]))
    requires size == 7 + U16(s[3], s[4]) <= |s|
    ensures Join(s[size - 1], s[size - 2]) == Modbus.Crc(s[..size][..size - 2]) ==>
              && FrameAt(s, 0) && EndOf(s, 0) == size
              && ResponseAt(s, 0) == Response(s[2], s[..size][5..size - 2])
    ensures Join(s[size - 1], s[size - 2]) != Modbus.Crc(s[..size][..size - 2]) ==> Dead(s, 0)
  {
    hide Known, U16, Modbus.Crc, Join;
    assert s[..size][..size - 2] == s[0..size - 2];
    assert s[..size][5..size - 2] == s[5..size - 2];
  }

  /** A beginning of a frame that is not whole yet. */
  lemma NothingMore(s: seq<byte>)
    requires |s| >= 2 ==> s[0] == 0x01 && s[1] == 0x45
    requires |s| == 1 ==> s[0] == 0x01
    requires |s| >= 5 ==> Known(s[2], U16(s[3], s[4])) && |s| < 7 + U16(s[3], s[4])
    ensures Settled(s)
  {
    hide Known, U16;
  }
}
