/** The OTA updater as an automaton: what it sends, and how it reacts to a reply or to a timeout. */
module OtaSender {
  import opened Wrappers
  import opened Bytes
  import opened Wire
  import opened OtaFrames
  import Modbus

  // ---- the frames it sends -------------------------------------------------------------------------

  const REQUEST: seq<byte> := [0x30, 0x30, 0x30, 0x30, 0x30, 0x30]

  /** The four bytes of a number below 2^32, high byte first. */
  function BigEndian32(n: nat): (s: seq<byte>)
    requires n < 0x1_0000_0000
    ensures |s| == 4
  {
    BigEndian(n / 0x1_0000) + BigEndian(n % 0x1_0000)
  }

  /** The first sixteen bytes of the package, an all-zero bytes 13 to 15 replaced by the characters 000. */
  function Identity(image: seq<byte>): (s: seq<byte>)
    requires |image| >= 22
    ensures |s| == 16
  {
    if image[13..16] == [0, 0, 0] then image[..13] + [0x30, 0x30, 0x30] else image[..16]
  }

  /** build_transfer_metadata. */
  function Metadata(image: seq<byte>): (s: seq<byte>)
    requires 22 <= |image| < 0x1_0000_0000
    ensures |s| == 22
  {
    var crc := Modbus.Crc(image);
    Identity(image) + BigEndian32(|image|) + [HiByte(crc), LoByte(crc)]
  }

  function ChunkSize(code: byte): (r: Option<nat>)
    ensures r.Some? ==> 64 <= r.value <= 1024
  {
    if code == 1 then Some(64)
    else if code == 2 then Some(128)
    else if code == 3 then Some(240)
    else if code == 4 then Some(512)
    else if code == 5 then Some(1024)
    else None
  }

  function TotalBlocks(size: nat, chunk: nat): (n: nat)
    requires chunk > 0
    ensures size > 0 ==> n > 0
  {
    (size + chunk - 1) / chunk
  }

  /** The bytes of block k. */
  function Chunk(image: seq<byte>, chunk: nat, k: nat): seq<byte>
    requires k * chunk <= |image|
  {
    if k * chunk + chunk <= |image| then image[k * chunk..k * chunk + chunk] else image[k * chunk..]
  }

  /** The data of a 0x13 frame: identity, index and number of blocks, CRC of the block, block. */
  function BlockData(image: seq<byte>, chunk: nat, k: nat): (s: seq<byte>)
    requires |image| >= 22 && 0 < chunk <= 1024
    requires k < TotalBlocks(|image|, chunk) <= 0xFFFF
    ensures 10 <= |s| <= 1034
  {
    BlockStart(image, chunk, k);
    var block := Chunk(image, chunk, k);
    var crc := Modbus.Crc(block);
    image[13..16] + image[12..13] + BigEndian(k) + BigEndian(TotalBlocks(|image|, chunk))
      + [HiByte(crc), LoByte(crc)] + block
  }

  lemma BlockStart(image: seq<byte>, chunk: nat, k: nat)
    requires 0 < chunk && k < TotalBlocks(|image|, chunk)
    ensures k * chunk < |image|
  {
    var t := TotalBlocks(|image|, chunk);
    assert t * chunk <= |image| + chunk - 1;
    assert (k + 1) * chunk <= t * chunk by { MulMono(k + 1, t, chunk); }
    assert (k + 1) * chunk == k * chunk + chunk;
  }

  lemma MulMono(a: nat, b: nat, c: nat)
    requires a <= b
    ensures a * c <= b * c
  {}

  // ---- the automaton -------------------------------------------------------------------------------

  /** Where the updater is; every phase up to Sending has its frame on the wire. */
  datatype Phase =
    | Asking(attempt: nat)
    | Describing(attempt: nat)
    | Sending(chunk: nat, idx: nat, attempt: nat)
    | Checking(chunk: nat)
    | Ended(out: Outcome)

  /** How a run ends: it returns, or it raises an error. */
  datatype Outcome = Returned(ok: bool) | Raised

  /** What it hears: a reply to the current command, or nothing until its time is up. */
  datatype Input = Reply(payload: seq<byte>) | Quiet

  /** The command whose replies a phase waits for. */
  function Command(ph: Phase): byte {
    match ph case Asking(_) => 0x11 case Describing(_) => 0x12 case _ => 0x13
  }

  /** The sizes read_response lets through for the phase. */
  predicate Admissible(ph: Phase, i: Input) {
    i.Reply? ==>
      match ph
      case Asking(_) => |i.payload| == 2
      case Describing(_) => |i.payload| in {4, 7}
      case Sending(_, _, _) => |i.payload| == 19
      case _ => false
  }

  predicate WellFormed(image: seq<byte>, ph: Phase) {
    && 22 <= |image|
    && match ph
       case Asking(a) => 1 <= a <= 3
       case Describing(a) => 1 <= a <= 5 && |image| < 0x1_0000_0000
       case Sending(chunk, idx, a) =>
         1 <= a <= 3 && 64 <= chunk <= 1024 && idx < TotalBlocks(|image|, chunk) <= 0xFFFF
       case Checking(chunk) => 64 <= chunk <= 1024 && TotalBlocks(|image|, chunk) <= 0xFFFF
       case _ => true
  }

  /** The reply carries the identity of the firmware. */
  predicate SameFirmware(image: seq<byte>, r: seq<byte>)
    requires |image| >= 22 && |r| == 19
  {
    r[3] == image[12] && r[6..16] == image[..10]
  }

  function Requested(r: seq<byte>): nat
    requires |r| == 19
  {
    U16(r[4], r[5])
  }

  /** A metadata reply, accepted or not. */
  function Accept(image: seq<byte>, r: seq<byte>): (next: Phase)
    requires |image| >= 22 && |r| in {4, 7}
    ensures WellFormed(image, next)
  {
    match ChunkSize(r[1])
    case None => Ended(Returned(false))
    case Some(chunk) =>
      if U16(r[2], r[3]) != 0 then Ended(Returned(false))
      else if TotalBlocks(|image|, chunk) > 0xFFFF then Ended(Returned(false))
      else Sending(chunk, 0, 1)
  }

  /** The metadata comes next; its length field holds four bytes. */
  function Describe(image: seq<byte>): Phase {
    if |image| < 0x1_0000_0000 then Describing(1) else Ended(Raised)
  }

  function Retry(ph: Phase): Phase
    requires ph.Sending?
  {
    if ph.attempt < 3 then ph.(attempt := ph.attempt + 1) else Ended(Returned(false))
  }

  function Advance(image: seq<byte>, ph: Phase): Phase
    requires ph.Sending? && ph.chunk > 0
  {
    if ph.idx + 1 < TotalBlocks(|image|, ph.chunk) then Sending(ph.chunk, ph.idx + 1, 1) else Checking(ph.chunk)
  }

  function Next(image: seq<byte>, ph: Phase, i: Input): (next: Phase)
    requires WellFormed(image, ph) && Admissible(ph, i)
    ensures WellFormed(image, next)
  {
    match ph
    case Asking(a) =>
      if i.Quiet? then (if a < 3 then Asking(a + 1) else Describe(image))
      else if i.payload[0] != 0x00 then Ended(Returned(false))
      else Describe(image)
    case Describing(a) =>
      var again := if a < 5 then Describing(a + 1) else Ended(Returned(false));
      if i.Quiet? then again
      else
        var status := i.payload[0];
        if status == 0x00 then Ended(Returned(true))
        else if status == 0x01 then again
        else if status == 0x02 then Ended(Returned(true))
        else if status == 0x06 || status == 0x08 then Accept(image, i.payload)
        else Ended(Returned(false))
    case Sending(chunk, idx, a) =>
      if i.Quiet? then Retry(ph)
      else if !SameFirmware(image, i.payload) then ph
      else
        var status, requested := i.payload[0], Requested(i.payload);
        if status == 0x00 then
          if requested == idx + 1 then Advance(image, ph)
          else if requested <= idx then ph
          else Retry(ph)
        else if status == 0x02 then
          if requested == idx + 1 then Advance(image, ph) else ph
        else Retry(ph)
    case Checking(_) => ph
    case Ended(_) => ph
  }

  /** The frame that is sent on entering a phase. */
  function Emits(image: seq<byte>, ph: Phase): seq<seq<byte>>
    requires WellFormed(image, ph)
  {
    match ph
    case Asking(_) => [Frame(0x11, REQUEST)]
    case Describing(_) => [Frame(0x12, Metadata(image))]
    case Sending(chunk, idx, _) => [Frame(0x13, BlockData(image, chunk, idx))]
    case _ => []
  }

  /** A run: the phase after a sequence of inputs, */
  function After(image: seq<byte>, inputs: seq<Input>): (ph: Phase)
    requires Fits(image, inputs)
    ensures WellFormed(image, ph)
    decreases |inputs|, 1
  {
    if inputs == [] then Asking(1)
    else
      var last := |inputs| - 1;
      Next(image, After(image, inputs[..last]), inputs[last])
  }

  /** whose inputs are replies to the command that is out, */
  predicate Fits(image: seq<byte>, inputs: seq<Input>)
    decreases |inputs|, 0
  {
    if inputs == [] then |image| >= 22
    else
      var last := |inputs| - 1;
      Fits(image, inputs[..last]) && Admissible(After(image, inputs[..last]), inputs[last])
  }

  /** and all the frames sent on the way. */
  function Sent(image: seq<byte>, inputs: seq<Input>): seq<seq<byte>>
    requires Fits(image, inputs)
  {
    if inputs == [] then Emits(image, Asking(1))
    else
      var last := |inputs| - 1;
      var before, after := After(image, inputs[..last]), After(image, inputs);
      Sent(image, inputs[..last]) + if after == before then [] else Emits(image, after)
  }
}
