/** What the OTA updater does and does not do, for every behaviour of the device. */
module OtaSafety {
  import opened Wrappers
  import opened Bytes
  import opened Wire
  import opened OtaFrames
  import opened OtaSender
  import Modbus

  /** Input j is the metadata reply that opened the transfer: status 06 or 08, a supported size code, and
      the first block requested. */
  predicate OpensAt(image: seq<byte>, inputs: seq<Input>, j: nat, chunk: nat)
    requires Fits(image, inputs)
  {
    && j < |inputs| && inputs[j].Reply?
    && Fits(image, inputs[..j]) && After(image, inputs[..j]).Describing?
    && var r := inputs[j].payload;
      && |r| in {4, 7} && r[0] in {0x06, 0x08} && ChunkSize(r[1]) == Some(chunk)
      && U16(r[2], r[3]) == 0
  }

  predicate SendsBlock(ph: Phase, chunk: nat, k: nat) {
    ph.Sending? && ph.chunk == chunk && ph.idx == k
  }

  /** Input j acknowledges block k: the identity of the firmware, status 00 or 02, and a request for the
      next block. */
  predicate AcknowledgesAt(image: seq<byte>, inputs: seq<Input>, j: nat, chunk: nat, k: nat)
    requires Fits(image, inputs)
  {
    && j < |inputs| && inputs[j].Reply?
    && Fits(image, inputs[..j]) && SendsBlock(After(image, inputs[..j]), chunk, k)
    && var r := inputs[j].payload;
      && |r| == 19 && SameFirmware(image, r) && r[0] in {0x00, 0x02} && Requested(r) == k + 1
  }

  /** Input j ends the run with success before any transfer: status 00 or 02. */
  predicate SkipsAt(image: seq<byte>, inputs: seq<Input>, j: nat)
    requires Fits(image, inputs)
  {
    && j < |inputs| && inputs[j].Reply?
    && Fits(image, inputs[..j]) && After(image, inputs[..j]).Describing?
    && |inputs[j].payload| > 0 && inputs[j].payload[0] in {0x00, 0x02}
  }

  predicate Opened(image: seq<byte>, inputs: seq<Input>, chunk: nat)
    requires Fits(image, inputs)
  {
    exists j | 0 <= j < |inputs| :: OpensAt(image, inputs, j, chunk)
  }

  predicate Acknowledged(image: seq<byte>, inputs: seq<Input>, chunk: nat, k: nat)
    requires Fits(image, inputs)
  {
    exists j | 0 <= j < |inputs| :: AcknowledgesAt(image, inputs, j, chunk, k)
  }

  predicate Skipped(image: seq<byte>, inputs: seq<Input>)
    requires Fits(image, inputs)
  {
    exists j | 0 <= j < |inputs| :: SkipsAt(image, inputs, j)
  }

  /** Whatever is said of the inputs up to some point stays true. */
  lemma StillTrue(image: seq<byte>, inputs: seq<Input>, n: nat, chunk: nat)
    requires Fits(image, inputs) && n <= |inputs| && Fits(image, inputs[..n])
    ensures Opened(image, inputs[..n], chunk) ==> Opened(image, inputs, chunk)
    ensures forall k: nat :: Acknowledged(image, inputs[..n], chunk, k) ==> Acknowledged(image, inputs, chunk, k)
    ensures Skipped(image, inputs[..n]) ==> Skipped(image, inputs)
  {
    hide Fits, After, SameFirmware;
    forall j | 0 <= j < n ensures inputs[..n][..j] == inputs[..j] {}
    if Opened(image, inputs[..n], chunk) {
      var j :| 0 <= j < n && OpensAt(image, inputs[..n], j, chunk);
      assert OpensAt(image, inputs, j, chunk);
    }
    forall k: nat | Acknowledged(image, inputs[..n], chunk, k)
      ensures Acknowledged(image, inputs, chunk, k)
    {
      var j :| 0 <= j < n && AcknowledgesAt(image, inputs[..n], j, chunk, k);
      assert AcknowledgesAt(image, inputs, j, chunk, k);
    }
    if Skipped(image, inputs[..n]) {
      var j :| 0 <= j < n && SkipsAt(image, inputs[..n], j);
      assert SkipsAt(image, inputs, j);
    }
  }

  /** What a phase proves about the inputs that led to it. */
  predicate Justified(image: seq<byte>, inputs: seq<Input>, ph: Phase)
    requires Fits(image, inputs)
  {
    match ph
    case Sending(chunk, idx, _) =>
      Opened(image, inputs, chunk) && forall k | 0 <= k < idx :: Acknowledged(image, inputs, chunk, k)
    case Checking(chunk) =>
      && chunk > 0 && Opened(image, inputs, chunk)
      && forall k | 0 <= k < TotalBlocks(|image|, chunk) :: Acknowledged(image, inputs, chunk, k)
    case Ended(out) => out == Returned(true) ==> Skipped(image, inputs)
    case _ => true
  }

  /** Data blocks are sent only after the metadata was accepted, block k only after all earlier blocks were
      acknowledged; all blocks are acknowledged before the result is checked; and success without a
      transfer is reported only when the device said 00 or 02. */
  lemma {:induction false} EveryPhaseIsJustified(image: seq<byte>, inputs: seq<Input>)
    requires Fits(image, inputs)
    ensures Justified(image, inputs, After(image, inputs))
    decreases |inputs|
  {
    hide SameFirmware, Requested;
    if inputs != [] {
      var n := |inputs| - 1;
      EveryPhaseIsJustified(image, inputs[..n]);
      StepIsJustified(image, inputs, n);
    }
  }

  lemma StepIsJustified(image: seq<byte>, inputs: seq<Input>, n: nat)
    requires Fits(image, inputs) && |inputs| == n + 1
    requires Justified(image, inputs[..n], After(image, inputs[..n]))
    ensures Justified(image, inputs, After(image, inputs))
  {
    hide Opened, Acknowledged, Skipped;
    var ph, i := After(image, inputs[..n]), inputs[n];
    match ph {
      case Asking(_) =>
      case Describing(_) => DescribingIsJustified(image, inputs, n);
      case Sending(chunk, idx, a) =>
        StillTrue(image, inputs, n, chunk);
        SendingIsJustified(image, inputs, n);
      case Checking(chunk) => StillTrue(image, inputs, n, chunk);
      case Ended(_) => StillTrue(image, inputs, n, 1);
    }
  }

  lemma DescribingIsJustified(image: seq<byte>, inputs: seq<Input>, n: nat)
    requires Fits(image, inputs) && |inputs| == n + 1
    requires After(image, inputs[..n]).Describing?
    ensures Justified(image, inputs, After(image, inputs))
  {
    var ph := After(image, inputs);
    if ph.Sending? {
      assert OpensAt(image, inputs, n, ph.chunk);
    } else if ph == Ended(Returned(true)) {
      assert SkipsAt(image, inputs, n);
    }
  }

  lemma SendingIsJustified(image: seq<byte>, inputs: seq<Input>, n: nat)
    requires Fits(image, inputs) && |inputs| == n + 1
    requires After(image, inputs[..n]).Sending?
    requires var ph := After(image, inputs[..n]);
      && Opened(image, inputs, ph.chunk)
      && forall k | 0 <= k < ph.idx :: Acknowledged(image, inputs, ph.chunk, k)
    ensures Justified(image, inputs, After(image, inputs))
  {
    hide Opened, ChunkSize, U16, SameFirmware, TotalBlocks;
    var before, after := After(image, inputs[..n]), After(image, inputs);
    if after.Checking? || (after.Sending? && after.idx != before.idx) {
      assert AcknowledgesAt(image, inputs, n, before.chunk, before.idx);
      assert Acknowledged(image, inputs, before.chunk, before.idx);
    }
  }

  // ---- how much is sent ------------------------------------------------------------------------------

  /** The frames a phase can have cost. */
  function Cost(ph: Phase): nat {
    match ph
    case Asking(a) => a
    case Describing(a) => 3 + a
    case Sending(_, idx, a) => 8 + 3 * idx + a
    case _ => 0
  }

  /** Without a transfer at most 8 frames; with one, 3 for each block of the size the device asked for. */
  ghost predicate Affordable(image: seq<byte>, inputs: seq<Input>, n: nat)
    requires Fits(image, inputs)
  {
    n <= 3 + 5
    || exists chunk :: 0 < chunk && Opened(image, inputs, chunk) && n <= 3 + 5 + 3 * TotalBlocks(|image|, chunk)
  }

  lemma StillAffordable(image: seq<byte>, inputs: seq<Input>, k: nat, n: nat)
    requires Fits(image, inputs) && k <= |inputs| && Fits(image, inputs[..k])
    requires Affordable(image, inputs[..k], n)
    ensures Affordable(image, inputs, n)
  {
    hide Opened, TotalBlocks, Fits;
    if n > 8 {
      var chunk :| 0 < chunk && Opened(image, inputs[..k], chunk) && n <= 3 + 5 + 3 * TotalBlocks(|image|, chunk);
      StillTrue(image, inputs, k, chunk);
    }
  }

  /** For every behaviour of the device, at most 3 upgrade requests, 5 metadata frames and 3 copies of each
      block are sent. */
  lemma {:induction false} SendsAreBounded(image: seq<byte>, inputs: seq<Input>)
    requires Fits(image, inputs)
    ensures Affordable(image, inputs, |Sent(image, inputs)|)
    ensures var ph := After(image, inputs);
      ph.Asking? || ph.Describing? || ph.Sending? ==> |Sent(image, inputs)| <= Cost(ph)
    decreases |inputs|
  {
    hide Emits, Opened, Acknowledged, Skipped;
    EmitsOne(image, After(image, inputs));
    EveryPhaseIsJustified(image, inputs);
    var ph := After(image, inputs);
    if inputs != [] {
      var n := |inputs| - 1;
      SendsAreBounded(image, inputs[..n]);
      NextCosts(image, After(image, inputs[..n]), inputs[n]);
      if ph.Checking? || ph.Ended? { StillAffordable(image, inputs, n, |Sent(image, inputs)|); }
    }
    if ph.Sending? {
      assert |Sent(image, inputs)| <= 8 + 3 * TotalBlocks(|image|, ph.chunk);
    }
  }

  lemma EmitsOne(image: seq<byte>, ph: Phase)
    requires WellFormed(image, ph)
    ensures |Emits(image, ph)| <= 1
    ensures ph.Checking? || ph.Ended? ==> Emits(image, ph) == []
  {}

  /** A phase that is entered costs at least one frame more than the one it follows. */
  lemma NextCosts(image: seq<byte>, ph: Phase, i: Input)
    requires WellFormed(image, ph) && Admissible(ph, i)
    ensures var next := Next(image, ph, i);
      next.Asking? || next.Describing? || next.Sending? ==>
        (ph.Asking? || ph.Describing? || ph.Sending?) && (next == ph || Cost(ph) + 1 <= Cost(next))
  {
    hide ChunkSize, U16, SameFirmware, TotalBlocks, Requested;
  }

  // ---- the blocks -------------------------------------------------------------------------------------

  /** The first n blocks one after the other. */
  function Blocks(image: seq<byte>, chunk: nat, n: nat): seq<byte>
    requires chunk > 0 && n <= TotalBlocks(|image|, chunk)
  {
    if n == 0 then []
    else
      BlockStart(image, chunk, n - 1);
      Blocks(image, chunk, n - 1) + Chunk(image, chunk, n - 1)
  }

  function Covered(size: nat, chunk: nat, n: nat): nat {
    if n * chunk < size then n * chunk else size
  }

  /** The blocks partition the image in order: any first n of them are its beginning, and all of them are
      the image; none is empty, and none is longer than the chunk size. */
  lemma {:induction false} BlocksPartition(image: seq<byte>, chunk: nat, n: nat)
    requires chunk > 0 && n <= TotalBlocks(|image|, chunk)
    ensures Blocks(image, chunk, n) == image[..Covered(|image|, chunk, n)]
    ensures n == TotalBlocks(|image|, chunk) ==> Blocks(image, chunk, n) == image
    decreases n
  {
    hide TotalBlocks;
    if n > 0 {
      BlocksPartition(image, chunk, n - 1);
      BlockStart(image, chunk, n - 1);
      var start := (n - 1) * chunk;
      NextStart(n, chunk);
      BlockAt(image, chunk, n - 1, start);
      assert image[..start] + image[start..Covered(|image|, chunk, n)] == image[..Covered(|image|, chunk, n)];
    }
    LastBlockEnds(|image|, chunk);
  }

  lemma NextStart(n: nat, chunk: nat)
    requires n > 0
    ensures n * chunk == (n - 1) * chunk + chunk
  {}

  lemma BlockAt(image: seq<byte>, chunk: nat, k: nat, start: nat)
    requires start == k * chunk <= |image|
    ensures Covered(|image|, chunk, k) == start <= Covered(|image|, chunk, k + 1)
    ensures Chunk(image, chunk, k) == image[start..Covered(|image|, chunk, k + 1)]
  {
    NextStart(k + 1, chunk);
  }

  lemma LastBlockEnds(size: nat, chunk: nat)
    requires chunk > 0
    ensures TotalBlocks(size, chunk) * chunk >= size
    ensures Covered(size, chunk, TotalBlocks(size, chunk)) == size
  {
    var t := TotalBlocks(size, chunk);
    assert size + chunk - 1 < (t + 1) * chunk;
    assert (t + 1) * chunk == t * chunk + chunk;
  }

  /** Every block has at least one byte and at most `chunk`. */
  lemma BlockLength(image: seq<byte>, chunk: nat, k: nat)
    requires chunk > 0 && k < TotalBlocks(|image|, chunk)
    ensures k * chunk < |image| && 0 < |Chunk(image, chunk, k)| <= chunk
    ensures k + 1 < TotalBlocks(|image|, chunk) ==> |Chunk(image, chunk, k)| == chunk
  {
    BlockStart(image, chunk, k);
    if k + 1 < TotalBlocks(|image|, chunk) {
      BlockStart(image, chunk, k + 1);
      assert (k + 1) * chunk == k * chunk + chunk;
    }
  }

  // ---- the decisions, byte for byte --------------------------------------------------------------------

  predicate AllQuiet(inputs: seq<Input>, n: nat) {
    n <= |inputs| && forall i | 0 <= i < n :: inputs[i].Quiet?
  }

  /** The request was granted: the first reply to it, to one of at most three, says 00; or there was none. */
  predicate GrantedBy(inputs: seq<Input>, j: nat) {
    && j <= 2 && j < |inputs| && AllQuiet(inputs, j)
    && inputs[j].Reply? && inputs[j].payload != [] && inputs[j].payload[0] == 0x00
  }

  predicate Granted(inputs: seq<Input>) { AllQuiet(inputs, 3) || exists j | 0 <= j <= 2 :: GrantedBy(inputs, j) }

  lemma StaysGranted(inputs: seq<Input>, n: nat)
    requires n <= |inputs| && Granted(inputs[..n])
    ensures Granted(inputs)
  {
    if !AllQuiet(inputs[..n], 3) {
      var j :| 0 <= j <= 2 && GrantedBy(inputs[..n], j);
      assert GrantedBy(inputs, j);
    }
  }

  /** Nothing goes beyond the request, and nothing succeeds, unless it was granted. */
  lemma {:induction false} OnlyWhenGranted(image: seq<byte>, inputs: seq<Input>)
    requires Fits(image, inputs)
    ensures var ph := After(image, inputs);
      && (ph.Asking? ==> ph.attempt == |inputs| + 1 <= 3 && AllQuiet(inputs, |inputs|))
      && (ph.Describing? || ph.Sending? || ph.Checking? || ph == Ended(Returned(true)) ==> Granted(inputs))
    decreases |inputs|
  {
    hide SameFirmware, Requested, TotalBlocks, ChunkSize, Granted, WellFormed;
    if inputs != [] {
      var n := |inputs| - 1;
      var before := After(image, inputs[..n]);
      OnlyWhenGranted(image, inputs[..n]);
      if before.Asking? {
        RequestAnswered(inputs);
      } else {
        if Granted(inputs[..n]) { StaysGranted(inputs, n); }
      }
    }
  }

  lemma RequestAnswered(inputs: seq<Input>)
    requires inputs != [] && |inputs| <= 3 && AllQuiet(inputs[..|inputs| - 1], |inputs| - 1)
    ensures var i := inputs[|inputs| - 1];
      && (i.Quiet? ==> AllQuiet(inputs, |inputs|) && (|inputs| == 3 ==> Granted(inputs)))
      && (i.Reply? && i.payload != [] && i.payload[0] == 0x00 ==> Granted(inputs))
  {
    var n := |inputs| - 1;
    forall i | 0 <= i < n ensures inputs[i].Quiet? { assert inputs[..n][i] == inputs[i]; }
    if inputs[n].Reply? && inputs[n].payload != [] && inputs[n].payload[0] == 0x00 {
      assert GrantedBy(inputs, n);
    }
  }

  /** A silent device: exactly three requests and five descriptions are sent, and the run ends false. */
  lemma {:induction false} SilentDevice(image: seq<byte>, inputs: seq<Input>)
    requires 22 <= |image| < 0x1_0000_0000 && AllQuiet(inputs, |inputs|)
    ensures Fits(image, inputs)
    ensures var n := |inputs|;
      && After(image, inputs) == (if n < 3 then Asking(n + 1) else if n < 8 then Describing(n - 2)
                                  else Ended(Returned(false)))
      && |Sent(image, inputs)| == (if n < 8 then n + 1 else 8)
      && forall i | 0 <= i < |Sent(image, inputs)| ::
           Sent(image, inputs)[i] == if i < 3 then Frame(0x11, REQUEST) else Frame(0x12, Metadata(image))
    decreases |inputs|
  {
    hide Frame, Metadata;
    if inputs != [] {
      var n := |inputs| - 1;
      forall i | 0 <= i < n ensures inputs[..n][i].Quiet? { assert inputs[..n][i] == inputs[i]; }
      SilentDevice(image, inputs[..n]);
    }
  }

  /** The first reply to the request decides: 00 and the description comes next; anything else ends the run false
      with nothing sent but requests. */
  lemma RequestDecides(image: seq<byte>, inputs: seq<Input>)
    requires 22 <= |image| < 0x1_0000_0000 && Fits(image, inputs) && 1 <= |inputs| <= 3
    requires AllQuiet(inputs, |inputs| - 1) && inputs[|inputs| - 1].Reply?
    ensures |inputs[|inputs| - 1].payload| == 2
    ensures var granted := inputs[|inputs| - 1].payload[0] == 0x00;
      && After(image, inputs) == (if granted then Describing(1) else Ended(Returned(false)))
      && |Sent(image, inputs)| == |inputs| + (if granted then 1 else 0)
      && forall i | 0 <= i < |inputs| :: Sent(image, inputs)[i] == Frame(0x11, REQUEST)
  {
    hide Frame, Metadata;
    var n := |inputs| - 1;
    SilentDevice(image, inputs[..n]);
  }

  /** The size code of a metadata reply, as bytes in a block; 0 for one that is not supported. */
  function BlockSize(code: byte): nat {
    match code case 1 => 64 case 2 => 128 case 3 => 240 case 4 => 512 case 5 => 1024 case _ => 0
  }

  /** What a reply to the description does. */
  lemma DescriptionDecides(image: seq<byte>, inputs: seq<Input>)
    requires Fits(image, inputs) && inputs != [] && After(image, inputs[..|inputs| - 1]).Describing?
    ensures var a, i := After(image, inputs[..|inputs| - 1]).attempt, inputs[|inputs| - 1];
      var next := After(image, inputs);
      if i.Quiet? || i.payload[0] == 0x01 then next == if a < 5 then Describing(a + 1) else Ended(Returned(false))
      else if i.payload[0] in {0x00, 0x02} then next == Ended(Returned(true))
      else
        var size := BlockSize(i.payload[1]);
        if i.payload[0] in {0x06, 0x08} && size > 0 && i.payload[2] == 0 && i.payload[3] == 0
           && |image| <= 65535 * size
        then next == Sending(size, 0, 1)
        else next == Ended(Returned(false))
  {
    hide SameFirmware, Requested, U16, TotalBlocks;
    var i := inputs[|inputs| - 1];
    if i.Reply? {
      ZeroWord(i.payload[2], i.payload[3]);
      var size := BlockSize(i.payload[1]);
      if size > 0 { FewBlocks(|image|, size); }
    }
  }

  lemma ZeroWord(hi: byte, lo: byte)
    ensures U16(hi, lo) == 0 <==> hi == 0 && lo == 0
  {
    ByteBound(hi);
    ByteBound(lo);
    if U16(hi, lo) == 0 {
      SameByte(hi, 0);
      SameByte(lo, 0);
    }
  }

  lemma FewBlocks(size: nat, chunk: nat)
    requires chunk > 0
    ensures TotalBlocks(size, chunk) <= 0xFFFF <==> size <= 65535 * chunk
  {
    var n := TotalBlocks(size, chunk);
    LastBlockEnds(size, chunk);
    if n <= 0xFFFF {
      MulMono(n, 65535, chunk);
    } else {
      MulMono(65535 + 1, n, chunk);
    }
  }

  /** What a reply to a data frame does. */
  lemma BlockDecides(image: seq<byte>, inputs: seq<Input>)
    requires Fits(image, inputs) && inputs != [] && After(image, inputs[..|inputs| - 1]).Sending?
    ensures var ph, i := After(image, inputs[..|inputs| - 1]), inputs[|inputs| - 1];
      var next := After(image, inputs);
      var again := if ph.attempt < 3 then Sending(ph.chunk, ph.idx, ph.attempt + 1) else Ended(Returned(false));
      if i.Quiet? then next == again
      else
        var r := i.payload;
        var asks := U16(r[4], r[5]);
        if r[3] != image[12] || r[6..16] != image[..10] then next == ph
        else if r[0] in {0x00, 0x02} && asks == ph.idx + 1 then
          next == if (ph.idx + 1) * ph.chunk < |image| then Sending(ph.chunk, ph.idx + 1, 1) else Checking(ph.chunk)
        else if (r[0] == 0x00 && asks <= ph.idx) || r[0] == 0x02 then next == ph
        else next == again
  {
    hide U16, TotalBlocks;
    var ph := After(image, inputs[..|inputs| - 1]);
    LastBlock(|image|, ph.chunk, ph.idx);
  }

  lemma LastBlock(size: nat, chunk: nat, k: nat)
    requires chunk > 0 && k < TotalBlocks(size, chunk)
    ensures k + 1 < TotalBlocks(size, chunk) <==> (k + 1) * chunk < size
  {
    var n := TotalBlocks(size, chunk);
    LastBlockEnds(size, chunk);
    if k + 1 < n {
      MulMono(k + 2, n, chunk);
      assert (k + 2) * chunk == (k + 1) * chunk + chunk;
      assert n * chunk <= size + chunk - 1;
    } else {
      assert k + 1 == n;
    }
  }

  /** Each time the updater turns to a block or tries it again, it sends that block; waiting on, and the end of the
      transfer, send nothing. */
  lemma BlockIsSent(image: seq<byte>, inputs: seq<Input>)
    requires Fits(image, inputs) && inputs != []
    ensures var ph, next := After(image, inputs[..|inputs| - 1]), After(image, inputs);
      ph.Sending? || next.Sending? ==>
        Sent(image, inputs) == Sent(image, inputs[..|inputs| - 1])
          + if next.Sending? && next != ph then [Frame(0x13, BlockData(image, next.chunk, next.idx))] else []
  {
    hide Frame, BlockData, SameFirmware, Requested, ChunkSize;
  }

  // ---- the description, byte for byte ----------------------------------------------------------------------

  /** What a receiver finds in the description: the identity, an empty hardware field filled in; the length; and
      the CRC of the whole image. */
  lemma MetadataDecodes(image: seq<byte>)
    requires 22 <= |image| < 0x1_0000_0000
    ensures var m := Metadata(image);
      && m[..13] == image[..13]
      && m[13..16] == (if image[13] == 0 && image[14] == 0 && image[15] == 0 then [0x30, 0x30, 0x30]
                       else image[13..16])
      && 0x1_0000 * U16(m[16], m[17]) + U16(m[18], m[19]) == |image|
      && Modbus.Checks(image, m[21], m[20])
  {
    hide BigEndian, U16, Modbus.Crc, HiByte, LoByte, Join, Identity;
    var m, id, crc := Metadata(image), Identity(image), Modbus.Crc(image);
    IdentityDecodes(image);
    assert m[..16] == id;
    assert m[..13] == m[..16][..13] && m[13..16] == m[..16][13..];
    DecodeEncode(|image| / 0x1_0000);
    DecodeEncode(|image| % 0x1_0000);
    assert m[16..18] == BigEndian(|image| / 0x1_0000) && m[18..20] == BigEndian(|image| % 0x1_0000);
    assert m[16] == m[16..18][0] && m[17] == m[16..18][1] && m[18] == m[18..20][0] && m[19] == m[18..20][1];
    assert m[20] == HiByte(crc) && m[21] == LoByte(crc);
    Halves(crc, HiByte(crc), LoByte(crc));
  }

  lemma IdentityDecodes(image: seq<byte>)
    requires |image| >= 22
    ensures var id := Identity(image);
      && id[..13] == image[..13]
      && id[13..] == (if image[13] == 0 && image[14] == 0 && image[15] == 0 then [0x30, 0x30, 0x30]
                      else image[13..16])
  {
    assert image[13..16] == [image[13], image[14], image[15]];
    if image[13..16] == [0, 0, 0] {
      assert image[13..16][0] == 0 && image[13..16][1] == 0 && image[13..16][2] == 0;
    }
  }

  /** The frames of the request and of the description. */
  lemma HandshakeFrames(image: seq<byte>, ph: Phase)
    requires WellFormed(image, ph) && (ph.Asking? || ph.Describing?)
    ensures |Emits(image, ph)| == 1
    ensures ph.Asking? ==> Carries(Emits(image, ph)[0], 0x11, [0x30, 0x30, 0x30, 0x30, 0x30, 0x30])
    ensures ph.Describing? ==> Carries(Emits(image, ph)[0], 0x12, Metadata(image))
  {
    hide Carries, Frame, Metadata;
    FrameCarries(0x11, REQUEST);
    if ph.Describing? { FrameCarries(0x12, Metadata(image)); }
  }
}
