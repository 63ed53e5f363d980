# Battery communication: models and proofs

A Dafny model of the code that carries battery data and battery firmware: the SCUD485 frame receiver, the
firmware updater, the daemon that publishes battery records, the client that reads them, the Modbus reply
reader, and the checksums they all rest on. `dafny verify dfyconfig.toml` checks the whole project.

How it is laid out:

- **Checksums.** `Gf2` is the theory: polynomial division over bits, and what a division register that is
  fed message bits holds. `Wire` turns bytes into bits, in either bit order, and proves that two adjacent
  bytes can neither be changed unnoticed nor be wrong together. `Ccitt` and `Modbus` tie the three
  implementations to it. The comment at src/drivers/scud485/scud_bms_driver.cpp:53-54 names the polynomial
  0x1201; the code below it computes 0x1021 (the generator of section 2 of ITU-T Recommendation V.41), and
  that is what is modelled.
- **SCUD485 receiver.** `ScudReceiver` has the eight-stage machine and the scan of the whole stream it is
  for, and proves them equal from every state of the machine. `ScudProtocol` is the driver: queries, the read
  loop with its deadline, and the record made of one round. `ScudReception` and `ScudRecovery` say what the
  scan means on a noisy bus: synchronisation, damage, recovery, and exactly which frames can be lost.
  `Battery` is the record and the backfill of the cell extremes.
- **Modbus replies.** `ModbusReader`, for src/drivers/gf485 and src/drivers/tws: their CRC and `read_response` are
  the same. How they decode registers is not: GF reads the high byte first, which is what
  `ModbusReader.RegistersRoundTrip` is about, and TWS the low byte first (src/drivers/tws/protocol.cpp:231).
- **Firmware updater.** `OtaFrames` is the parse of a stream into frames; `OtaUpdater` is the program, with the
  buffer that survives between calls; `OtaSender` is the automaton it follows; `OtaSafety` and `OtaLink` are
  about that automaton, alone and against a bootloader over a channel that loses, delays, repeats and
  reorders; `OtaPackage` finds the firmware in its package.
- **Daemon and client.** `Daemon` is the round loop; `ClientReader` the reader thread and its records;
  `ClientFreshness` the same thread and two callers, one atomic access at a time; `ClientTiming` the argument,
  by time alone, that a record cut short is never completed by the next one; `ClientPipeline` puts the last
  three together, from the rounds of the daemon to the cache of the client.

A completeness claim one might expect is false of the code and is proved false: after a rejected candidate
the receiver goes on at the candidate's tail byte, so a frame that began inside it is missed
(`ScudRecovery.SomeFrameIsMissed`). Three statements come with the exact condition under which they hold, in
both directions:

- a valid frame at position p of a stream is delivered if and only if every candidate that was tried before it
  was rejected and has its tail byte at p or earlier (`ScudRecovery.DeliveredIff`; `Tried` follows the scan from
  candidate to candidate);
- the receiver is the scan for a given command and length if and only if the command is not 0xFE or the length
  is (`ScudRecovery.RefinesScanIff`);
- no record of the client is ever made of two writes of the daemon if and only if delivery, interruptions and
  scheduling together delay by less than 500 ms (`ClientTiming.NoSplicingIff`). Bounds on delivery and scheduling
  alone are not enough: a signal that interrupts poll makes the client start it anew with its whole timeout
  (src/drivers/scud485/scud_bms_driver.cpp:409-410), so that a part of a record can outlive the period between
  two writes, for every such bound (`ClientTiming.InterruptedPollSplices`).

## Model

| member | source | states |
|---|---|---|
| Gf2.FeedAllIsDivision | src/drivers/scud485/scud_bms_driver.cpp:55-65 | the register that is fed a message bit by bit holds the remainder of the message times x^16, plus that of the initial value moved past it |
| Gf2.BurstDetected | src/drivers/scud485/scud_bms_driver.cpp:55-65 | for any generator with constant term, changing bits only within a window of 16 changes the remainder, at any length and position |
| Wire.TwoByteBurst | src/drivers/gf485/protocol.cpp:71-80 | the same for two adjacent bytes, in either bit order |
| Wire.TwoBytesClear | src/drivers/gf485/protocol.cpp:120-126 | exactly one pair of following bytes brings a register to zero: its own value |
| Ccitt.Crc16Ccitt | src/drivers/scud485/scud_bms_driver.cpp:55-65 | the loop computes the remainder of the message, first bit of a byte first, by x^16 + x^12 + x^5 + 1, for every length |
| Ccitt.TurnFeedsByte | src/drivers/scud485/scud_bms_driver.cpp:58-62 | one turn of the shift-and-xor loop is the register fed the eight bits of one byte |
| Ccitt.ResidueZeroIffChecks | src/drivers/scud485/scud_bms_driver.cpp:196-199 | a message with two bytes after it has remainder zero if and only if they are its CRC, high byte first, which is what the receiver compares |
| Ccitt.BurstIsDetected | src/drivers/scud485/scud_bms_driver.cpp:183-203 | of two messages that differ only within two adjacent bytes at most one passes |
| Modbus.ModbusCrc16 | scripts/bms_ota.py:18-27 | the 0xA001 loop computes the reflected remainder with initial value 0xFFFF, for every length |
| Modbus.TableEntry | src/drivers/gf485/protocol.cpp:17-53 | each of the 256 entries of the two tables is eight steps of the bitwise loop on its index |
| Modbus.TableTurn | src/drivers/gf485/protocol.cpp:74-78 | one turn of the table loop is the bitwise loop on that byte |
| Modbus.CrcGrows | scripts/bms_ota.py:20-26 | one more byte enters the CRC and is shifted out bit by bit; the empty message has FFFF |
| Modbus.CalculateCrc | src/drivers/tws/protocol.cpp:84-93 | the table form computes the same CRC as the bitwise form, for every length |
| Modbus.ResidueZeroIffChecks | src/drivers/gf485/protocol.cpp:120-126 | a message with two bytes after it has residue zero if and only if they are its CRC, low byte first |
| Modbus.BurstIsDetected | src/drivers/gf485/protocol.cpp:120-126 | of two messages that differ only within two adjacent bytes at most one passes |
| ScudReceiver.RunIsScan | src/drivers/scud485/scud_bms_driver.cpp:113-208 | from every state of the machine and for every stream, the first delivery is that of the scan: the leftmost FE FE cmd len, judged by CRC and tail, or else on from that candidate's tail byte; payload and number of bytes used agree |
| ScudReceiver.StepKeepsWellFormed | src/drivers/scud485/scud_bms_driver.cpp:132-206 | every byte keeps the machine in a state whose command, length and collected payload fit its stage |
| ScudReceiver.Scan | src/drivers/scud485/scud_bms_driver.cpp:92-98 | what the scan finds lies at or after its start, has the prefix, and is a valid frame |
| ScudProtocol.StartIsScan | src/drivers/scud485/scud_bms_driver.cpp:113-117 | from its initial state the machine delivers what the scan from the first byte delivers |
| ScudProtocol.ScudBmsProtocol.ReadFrame | src/drivers/scud485/scud_bms_driver.cpp:99-209 | for every mixture of bytes, empty reads, link errors and the deadline, and every target: what the machine delivers of the bytes before the end of the wait, which is what the scan finds when cmd is not FE or len is FE; exactly its events are used up |
| ScudProtocol.ScudBmsProtocol.SendQuery | src/drivers/scud485/scud_bms_driver.cpp:67-81 | true only when one query frame was written whole, in its documented layout, with the CRC of its body; on a closed port nothing is written, and after a failed or short write at most a part of the frame was |
| ScudProtocol.ScudBmsProtocol.ReadAll | src/drivers/scud485/scud_bms_driver.cpp:250-303 | for every outcome of both writes: a 0x61 query that fails to go out or gets no reply leaves the status as it was; otherwise the status is the snapshot of that payload and, when it omits the extremes and the 0x31 query went out, of the 0x31 payload that followed |
| ScudReception.FrameIsValid | src/drivers/scud485/scud_bms_driver.cpp:183-203 | a frame built with its CRC is valid wherever it stands in a stream |
| ScudReception.ValidIffFrame | src/drivers/scud485/scud_bms_driver.cpp:183-203 | and nothing else is: valid is exactly where a whole frame stands, head, CMD, LEN, payload, CRC and tail |
| ScudReception.QueryIsFrame | src/drivers/scud485/scud_bms_driver.cpp:67-81 | the query is itself a valid frame, of length 1, wherever its echo stands |
| ScudReception.ReplyIsReceived | src/drivers/scud485/scud_bms_driver.cpp:99-209 | a reply behind noise without the prefix is what the read returns, and exactly its events and those of the noise are used up |
| ScudReception.ReplyBecomesRecord | src/drivers/scud485/scud_bms_driver.cpp:250-303 | end to end: the bytes of a 0x61 reply that reports extremes, behind noise, become the record with each of its fields |
| ScudReception.OmittedExtremesAreBackfilled | src/drivers/scud485/scud_bms_driver.cpp:284-301 | a 0x61 reply without extremes becomes the record of its fields with the highest and lowest nonzero cell of the 0x31 reply, or with zeros when there is no such reply or no such cell |
| Serial.StreamReads | src/drivers/scud485/scud_bms_driver.cpp:119-130 | empty reads change nothing; an error or the deadline ends the wait |
| Serial.RestBringsTheOthers | src/drivers/scud485/scud_bms_driver.cpp:119-130 | what is left after a frame are the events that bring the other bytes |
| ScudReception.DamagedFrameIsRejected | src/drivers/scud485/scud_bms_driver.cpp:183-203 | two frames of equal CMD and LEN that differ only within two adjacent bytes of payload and CRC cannot both be valid |
| ScudReception.SelfSynchronises | src/drivers/scud485/scud_bms_driver.cpp:92-98 | after bytes in which the prefix does not occur, a valid frame is delivered exactly at its tail byte, whatever follows |
| ScudReception.NoiseAlone | src/drivers/scud485/scud_bms_driver.cpp:144-148 | no noise without the prefix, odd runs of FE included, begins a prefix that the frame completes |
| ScudReception.EchoThenReply | src/drivers/scud485/scud_bms_driver.cpp:88-94 | noise, then the echo of one's own query, then the reply: the reply is delivered |
| ScudReception.HeadStageIsLongestBorder | src/drivers/scud485/scud_bms_driver.cpp:133-206 | for every stream, with any rejected candidates in it: in a head stage the stage is the length of the longest end of the bytes since the last restart that is a beginning of FE FE cmd len, and in a body stage the machine holds the candidate at the first occurrence since then |
| ScudRecovery.RemainingBound | src/drivers/scud485/scud_bms_driver.cpp:171-206 | the bytes still needed by a candidate number at most its length plus 3 |
| ScudRecovery.Stabilises | src/drivers/scud485/scud_bms_driver.cpp:171-206 | from every state, after exactly that many bytes the machine has delivered or is in a head stage |
| ScudRecovery.RecoversAfterRejection | src/drivers/scud485/scud_bms_driver.cpp:158-206 | from inside a candidate that turns out invalid, the first occurrence from its tail byte on, when valid, is delivered |
| ScudRecovery.ScanFindsIff | src/drivers/scud485/scud_bms_driver.cpp:183-206 | from any start of the scan, a valid frame is what it finds if and only if every candidate tried before was rejected and ends at or before it |
| ScudRecovery.DeliveredIff | src/drivers/scud485/scud_bms_driver.cpp:204-205 | the machine delivers a valid frame, at its tail byte, if and only if every candidate tried before was rejected and the frame does not begin inside it |
| ScudRecovery.SomeFrameIsMissed | src/drivers/scud485/scud_bms_driver.cpp:204-205 | for every target with two bytes of payload or more there is a stream with a valid frame that is missed |
| ScudRecovery.RefinesScanIff | src/drivers/scud485/scud_bms_driver.cpp:144-166 | the machine is the scan on all streams if and only if cmd is not FE or len is FE |
| Battery.CellExtremes | src/drivers/scud485/scud_bms_driver.cpp:289-299 | for any number of cells: the largest and smallest nonzero one when some nonzero cell is below FFFF, otherwise nothing |
| Battery.BackfilledUnique | src/drivers/scud485/scud_bms_driver.cpp:289-299 | that determines the result |
| Battery.SnapshotUnique | src/drivers/scud485/scud_bms_driver.cpp:239-303 | a record is determined by one 0x61 payload and at most one 0x31 payload |
| Battery.UserInfoRoundTrip | src/drivers/scud485/scud_bms_driver.cpp:254-282 | each field of a 0x61 payload, laid out in its documented place, is read back: signed current and temperature, flag bits, extremes; and extremes count as omitted exactly when both are zero |
| Battery.CellsRoundTrip | src/drivers/scud485/scud_bms_driver.cpp:290-291 | the cells are the first fifteen words of a 0x31 payload |
| Battery.SnapshotOfFields | src/drivers/scud485/scud_bms_driver.cpp:250-303 | so a snapshot is the record of the fields and cells the battery sent |
| ModbusReader.SerialLink.Read | src/drivers/gf485/protocol.cpp:104-117 | a read returns the next bytes of the stream, at most as many as asked for, or none when the stream stalls; the rest of the buffer is untouched |
| ModbusReader.ResponseReader.Fill | src/drivers/gf485/protocol.cpp:99-118 | the buffer ends as the bytes that arrived before the first stall, and zeros after them |
| ModbusReader.ResponseReader.ReadResponse | src/drivers/tws/protocol.cpp:103-136 | for every chunking, success if and only if all expected bytes came before the first stall or error, the CRC matches and the exception bit is clear |
| ModbusReader.ChunkingIsIrrelevant | src/drivers/gf485/protocol.cpp:103-118 | any chunking of a reply comes to the same bytes |
| ModbusReader.AcceptsIff | src/drivers/gf485/protocol.cpp:120-128 | accepted is exactly a reply of five bytes or more with residue zero and the exception bit clear |
| ModbusReader.ExceptionIsRejected | src/drivers/gf485/protocol.cpp:126-128 | an exception reply (section 7 of MODBUS Application Protocol V1.1b3) is never accepted, whatever length was expected |
| ModbusReader.RegistersRoundTrip | src/drivers/gf485/protocol.cpp:95-129 | a register block encoded by section 6.3 of that protocol is accepted, and each register is read back |
| ModbusReader.DamagedIsRejected | src/drivers/gf485/protocol.cpp:120-126 | an accepted reply that is changed only within two adjacent bytes is not accepted |
| OtaFrames.FramesSkip | scripts/bms_ota.py:173-197 | dropping bytes at which no frame starts leaves the parse of the stream as it is |
| OtaFrames.FramesTake | scripts/bms_ota.py:198-223 | taking the frame at the front leaves the rest of the parse, whatever arrives later |
| OtaFrames.TrackDrops | scripts/bms_ota.py:173-210 | bytes that no later arrival can make the start of a frame may be dropped: consumed frames plus buffer still account for the stream and all its continuations |
| OtaFrames.TrackConsumes | scripts/bms_ota.py:198-223 | so may a frame at the front be consumed |
| OtaFrames.ConsumedIsPrefix | scripts/bms_ota.py:169-232 | the frames consumed, returned or skipped as late, are a prefix of the leftmost parse of all bytes received |
| OtaFrames.FrameIsParsedOrOverlapped | scripts/bms_ota.py:169-232 | every valid frame in the stream is in the parse or overlaps one that is, and began earlier |
| OtaFrames.ParsedAppears | scripts/bms_ota.py:169-232 | what is in the parse is among the frames it yields |
| OtaFrames.ReplyIsParsed | scripts/bms_ota.py:12-16 | every reply (0x11 with 2 bytes, 0x12 with 4 or 7, 0x13 with 19), encoded with its CRC, is the first frame of any stream it begins, and is read back |
| OtaFrames.FrameIsReply | scripts/bms_ota.py:184-220 | a frame starts at a position if and only if one of those replies stands there |
| OtaUpdater.BmsOta.Resynchronise | scripts/bms_ota.py:175-182 | the buffer is moved to the next header, or to a byte that may begin one, and no frame is lost, now or later |
| OtaUpdater.BmsOta.Examine | scripts/bms_ota.py:175-223 | one turn of the parser: it drops bytes, takes exactly the next frame of the parse, or nothing can be decided without more bytes |
| OtaUpdater.BmsOta.ReadResponse | scripts/bms_ota.py:169-232 | for every arrival and timeout, buffer and consumed frames stay a parse of the bytes received since the last clear; the returned frame is the first of the command waited for, all before it were of others; 2 * unread + buffered goes down with each; a broken port is the last event read; an end for want of bytes, not of time, leaves no complete frame behind; and a reply to the command that comes first after a clear is returned, when there is time |
| OtaPackage.LocateFirmwarePayload | scripts/bms_ota.py:39-56 | for every package, too short ones included: the payload found is the first, little size and little CRC before big, whose declared size and CRC describe the end of the package; none is returned only when none does |
| OtaPackage.PackageIsLocated | scripts/bms_ota.py:39-56 | a package built of identity, size, CRC and payload, in any byte orders, is located: with its payload, unless an earlier pair of byte orders describes it too |
| OtaLink.RunIsSender | scripts/bms_ota.py:289-484 | along every run of the link the updater is the automaton of what it hears, in its phase and in all it sent |
| OtaLink.CheckMeansWritten | scripts/bms_ota.py:499-503 | whatever an updater can hear on the link leads it to the check only when the bootloader holds the firmware |
| OtaUpdater.UpgradeWritesFirmware | scripts/bms_ota.py:289-503 | the program, and not only the automaton: when what it parsed is what can be heard on a link to an honest bootloader, and it returns true, the bootloader holds the firmware byte for byte, or has said itself that there is nothing to do |
| OtaSafety.EveryPhaseIsJustified | scripts/bms_ota.py:289-503 | for every device: blocks are sent only after status 06 or 08 with a supported size code and requested packet 0, block k only when blocks before k were acknowledged; success without a check only on status 00 or 02; the check only when all were acknowledged |
| OtaSafety.OnlyWhenGranted | scripts/bms_ota.py:292-323 | nothing beyond the request is sent, and nothing succeeds, unless the first reply to one of the three requests says 00 or there was none to any of them |
| OtaSafety.RequestDecides | scripts/bms_ota.py:302-318 | the first reply to the request decides: 00 leads to the description; anything else ends the run false with nothing but requests sent |
| OtaSafety.SilentDevice | scripts/bms_ota.py:292-363 | with a silent device exactly three requests and five descriptions are sent, and the run ends false |
| OtaSafety.DescriptionDecides | scripts/bms_ota.py:328-392 | what each status, size code, requested packet and number of blocks of a metadata reply leads to, byte for byte |
| OtaSafety.BlockDecides | scripts/bms_ota.py:414-481 | what each reply to a data frame leads to, byte for byte: the next block or the check, another of three attempts, or waiting on |
| OtaSafety.BlockIsSent | scripts/bms_ota.py:413-415 | turning to a block and trying it again each send exactly that block; nothing else does |
| OtaSafety.SendsAreBounded | scripts/bms_ota.py:289-484 | for every device at most 3 + 5 + 3 * total_blocks frames are sent, and at most 8 when no transfer was opened |
| OtaSafety.BlocksPartition | scripts/bms_ota.py:387-405 | for every firmware length and block size the blocks in order make up the image, no byte left out or sent in two blocks |
| OtaSafety.BlockLength | scripts/bms_ota.py:397-399 | every block is nonempty, and all but the last are full |
| OtaLink.DataFrameDecodes | scripts/bms_ota.py:398-415 | a receiver that takes only frames with good header, length and CRC takes every data frame, and gets back identity, index, number of blocks, the block and its CRC, for every index the block count allows in 16 bits |
| OtaLink.StepInv | scripts/bms_ota.py:394-484 | whatever the channel and the bootloader do next, the link invariant is kept |
| OtaLink.TransferIsCorrect | scripts/bms_ota.py:394-484 | in every reachable state pkt_idx <= device.next <= pkt_idx + 1, the device holds exactly the blocks before device.next, and when all blocks are acknowledged it holds the firmware byte for byte |
| OtaLink.AcknowledgementIsGenuine | scripts/bms_ota.py:432-451 | the updater goes on to the next block only when the device has written this one; a repeated earlier acknowledgement never does it |
| OtaLink.CanComplete | scripts/bms_ota.py:397-484 | from every state of a transfer, whatever was lost or repeated before, there is a continuation that completes it |
| OtaUpdater.BmsOta.SendFrame | scripts/bms_ota.py:74-81 | exactly one frame is written: 01 45, the command, the big-endian length, the data, and the CRC of all of that, low byte first |
| OtaSafety.MetadataDecodes | scripts/bms_ota.py:29-37 | a receiver of the description finds the identity, zero bytes 13 to 15 replaced by characters 0, the length and the CRC of the image |
| OtaSafety.HandshakeFrames | scripts/bms_ota.py:290-329 | the request carries 0x11 and six characters 0, the description 0x12 and those data |
| OtaUpdater.CommandsAreRequests | scripts/bms_ota.py:84-109 | the two fixed commands are Modbus requests with a good CRC: write 1 to register A904, read two registers from 9026 |
| OtaUpdater.BmsOta.EnterBootloader | scripts/bms_ota.py:83-106 | the fixed jump command is written once; up to eight bytes are read, whatever they are; only a broken port ends the run; the buffer is empty afterwards |
| OtaUpdater.BmsOta.ReadAppVersion | scripts/bms_ota.py:108-139 | one version query, and up to nine bytes read: a version exactly when all nine came, with the reply's header and their CRC |
| OtaUpdater.BmsOta.VerifyCompletion | scripts/bms_ota.py:141-167 | result and number of queries are those of the check of the events that are left |
| OtaUpdater.CheckedIff | scripts/bms_ota.py:147-167 | that check succeeds if and only if one of its at most ten queries is answered and the first version read is not the one known before; it stops there |
| OtaUpdater.VersionIff | scripts/bms_ota.py:131-139 | these versions are read from exactly one reply: header, software and hardware version high byte first, CRC |
| OtaUpdater.VersionIsHeard | scripts/bms_ota.py:115-139 | and when that reply arrives it is read whole |
| OtaUpdater.BmsOta.RequestUpgrade | scripts/bms_ota.py:289-323 | the upgrade request follows the automaton, frame for frame and answer for answer |
| OtaUpdater.BmsOta.DescribeFirmware | scripts/bms_ota.py:325-380 | so does the metadata phase, and it ends with the block size the device asked for; a length of 4 GiB or more raises an error before anything is sent |
| OtaUpdater.BmsOta.TryBlock | scripts/bms_ota.py:414-478 | so does one attempt at a block, with its late, early and foreign answers |
| OtaUpdater.BmsOta.SendBlock | scripts/bms_ota.py:413-481 | so do the three attempts at a block |
| OtaUpdater.BmsOta.TransferBlocks | scripts/bms_ota.py:387-484 | so does the loop over the blocks, which ends when index and offset have both reached the end |
| OtaUpdater.BmsOta.Upgrade | scripts/bms_ota.py:289-503 | what the program sent is what the automaton sends for the answers heard, those are what the parser took from the events read, and the result is that of the automaton, of a port that broke at the last event read while a reply was waited for, or of the check made of the events left |
| OtaUpdater.BmsOta.Run | scripts/bms_ota.py:234-509 | nothing is sent if and only if the package holds no payload; otherwise the version query, then the jump command unless the port broke, then the upgrade against the version that was read |
| OtaUpdater.UpgradeIsSafe | scripts/bms_ota.py:289-503 | true is returned only when the request was granted or met with silence, and the device then reported 00 or 02 to the metadata, or acknowledged every block and came back with a version other than the known one; after a transfer, exactly when it came back so; and the number of frames sent is bounded |
| OtaUpdater.ExplainedMore | scripts/bms_ota.py:289-484 | one answer more: the frames the parser consumed still explain all the answers the automaton was given |
| Daemon.MergeCarries | src/bms_daemon.cpp:112-151 | one field-by-field round turns the carried record into that of a history one round longer: each group is that of the last round that read it |
| Daemon.StatusStep | src/bms_daemon.cpp:104-151 | the same for both kinds of protocol; a snapshot replaces the record whole |
| Daemon.EachFieldIsLatest | src/bms_daemon.cpp:112-151 | over any history of TWS or GF rounds, each published field is that of its own group in the last round that read the group, and zero when none did |
| Daemon.PublishesIff | src/bms_daemon.cpp:117-153 | a round publishes exactly when one of its reads succeeded, whichever |
| Daemon.CountStep | src/bms_daemon.cpp:153-187 | the counter stays within 0 to 4, and counter and reopenings follow the failed rounds: reopenings are the sum over maximal failed runs of a fifth of their length |
| Daemon.ExtremesAreBasic | src/bms_daemon.cpp:141-148 | when the I/O read leaves the cell fields alone, as TWS and GF do, the extremes carried are those of the last good basic read |
| Daemon.BackfillKeepsBasicIff | src/bms_daemon.cpp:141-148 | for a protocol whose I/O read fills in cells, which none in the repository does, the backfill would overwrite a good basic read: the extremes survive exactly when that read leaves them as they are |
| Daemon.DeliveryStep | src/bms_daemon.cpp:166-200 | one round more: each client has been sent the records published since it was accepted and until its first failed write |
| Daemon.ClientGetsEveryRecord | src/bms_daemon.cpp:166-200 | a client whose writes do not fail is sent every record published since it was accepted, in order, each once |
| Daemon.FailedWriteErases | src/bms_daemon.cpp:166-170 | a client whose write fails is gone from the list |
| Daemon.LostClientGetsNothing | src/bms_daemon.cpp:166-173 | after a failed write a client is sent nothing more |
| Daemon.BmsDaemon.MergeFields | src/bms_daemon.cpp:113-150 | three reads into one raw record come to the groups merged one by one |
| Daemon.BmsDaemon.Broadcast | src/bms_daemon.cpp:166-173 | erasing while iterating: exactly the clients whose write succeeded stay, in order, and each of them got the record once |
| Daemon.BmsDaemon.CountFailure | src/bms_daemon.cpp:174-187 | the fifth failure in a row reopens the port and starts the count again |
| Daemon.BmsDaemon.PlayRound | src/bms_daemon.cpp:96-203 | one round keeps the daemon's whole state a function of the rounds so far |
| Daemon.BmsDaemon.Run | src/bms_daemon.cpp:90-203 | so over any history of rounds: record, counter, reopenings, clients and what each client was sent |
| Daemon.BmsDaemon.ScudRound | src/bms_daemon.cpp:104-111 | a published SCUD record is the snapshot of payloads received in this round; a failed 0x61, a failed write or a closed port publishes nothing and leaves the record; the fifth failure in a row opens the port again, or fails to |
| Daemon.BmsDaemon.RunScud | src/bms_daemon.cpp:96-203 | over any run, with any outcome of each write and each reopening: every record in every client's inbox is the snapshot of one 0x61 payload and at most one 0x31 payload received in the round that sent it to that client |
| Daemon.InboxOfRounds | src/bms_daemon.cpp:166-173 | what a client was sent was read by a round that succeeded while the client was connected, from that round's events |
| ClientReader.ScudBmsDriver.ReaderLoop | src/drivers/scud485/scud_bms_driver.cpp:395-476 | for every history of arrivals, silences, errors and reconnections, the driver's state is that of the history |
| ClientReader.ScudBmsDriver.TakeBytes | src/drivers/scud485/scud_bms_driver.cpp:447-474 | one short or full read: what is accumulated is the session's unfinished record, and the byte that fills it publishes it |
| ClientReader.ScudBmsDriver.Disconnect | src/drivers/scud485/scud_bms_driver.cpp:383-393 | flag and stamp are cleared and the cache stays; if the socket was open the session ends |
| ClientReader.ReceivedInPieces | src/drivers/scud485/scud_bms_driver.cpp:447-466 | bytes received in two pieces come to the same as in one |
| ClientReader.ReceivedWithinRecord | src/drivers/scud485/scud_bms_driver.cpp:465-474 | short of a full record nothing is published; the bytes that fill it publish exactly the last SIZE bytes |
| ClientReader.RunIsSound | src/drivers/scud485/scud_bms_driver.cpp:395-476 | in every run, what was published are the aligned records of each session in order, and a stamp means the present session published |
| ClientReader.CacheIsOneRecord | src/drivers/scud485/scud_bms_driver.cpp:447-474 | in every run the cache is all zeros or one aligned record of one session, and n bytes of the present session have published n div SIZE |
| ClientReader.RecordsAreAligned | src/drivers/scud485/scud_bms_driver.cpp:447-474 | the k-th record of a session is its k-th SIZE bytes |
| ClientReader.WhatEndsASession | src/drivers/scud485/scud_bms_driver.cpp:408-463 | every error of poll or read, the end of the stream, and silence with a part of a record read end the session; an interruption, or silence between records, changes nothing |
| ClientFreshness.StepInv | src/drivers/scud485/scud_bms_driver.cpp:362-393 | every single atomic access or lock operation of the reader and both callers keeps the invariant |
| ClientFreshness.RunInv | src/drivers/scud485/scud_bms_driver.cpp:362-393 | so does every interleaving of them |
| ClientFreshness.ConnectedAndStampedIsFresh | src/drivers/scud485/scud_bms_driver.cpp:383-393 | in every reachable state, connected with a stamp means that a complete record was published in the present session, and that the cache holds one of this session, the stamped one or a newer |
| ClientFreshness.PowerOnIsCurrent | src/drivers/scud485/scud_bms_driver.cpp:548-553 | is_power_on returns true if and only if there is a stamp, the clock works, the stamp is at most 3000 ms old and the record it read says so; that record is the stamped one or newer |
| ClientFreshness.ConnectedIsCurrent | src/drivers/scud485/scud_bms_driver.cpp:555-575 | is_connected returns true if and only if the flag was loaded set, there is a stamp, the clock works and the stamp is at most 3000 ms old; then there was a moment during the call with flag and stamp both set, and that stamp is of the session whose flag was read or a later one |
| ClientFreshness.ReadsAreWhole | src/drivers/scud485/scud_bms_driver.cpp:468-471 | the cache is never read while it is being written |
| ClientTiming.NoSplicing | src/drivers/scud485/scud_bms_driver.cpp:407-427 | with writes at least 1000 ms apart, and delivery, interruptions of the poll and scheduling below 500 ms together, every published record is one of the daemon's writes in full, however many of them were cut short |
| ClientTiming.NothingLeftAtWrite | src/bms_daemon.cpp:202-202 | under the same bounds, by the next write the client has published or dropped all it was sent |
| ClientTiming.NoSplicingIff | src/drivers/scud485/scud_bms_driver.cpp:407-466 | and that bound is exact: for all longer delays there is a run that publishes a record made of two writes |
| ClientTiming.InterruptedPollSplices | src/drivers/scud485/scud_bms_driver.cpp:409-410 | no bounds on delivery and scheduling suffice when signals may interrupt the client up to one poll after a read |
| ClientPipeline.RunMatches | src/drivers/scud485/scud_bms_driver.cpp:401-476 | every run of the timed client is a run of the reader thread, with the same part of a record read and the same records published, byte for byte |
| ClientPipeline.CacheIsWritten | src/drivers/scud485/scud_bms_driver.cpp:407-474 | under the bounds, the cache is all zeros or a record the daemon wrote, and so is all the reader thread ever published |
| ClientPipeline.CacheIsPublished | src/bms_daemon.cpp:166-173 | from end to end: whatever rounds the daemon plays and however its writes are cut short, the client's cache is all zeros or the whole record of a round whose read succeeded |

## Left out

- The serial port, termios, sockets, poll and select: they are events here (bytes, nothing, an error, the end of
  a wait).
- The bootloader and the battery pack are not in the repository. `OtaLink` assumes of the bootloader only that it
  takes no frame without good header, length and CRC, writes a block when that is its next one, replies with its
  next index, and is not reset during a transfer; when it replies, how often, and all else in its replies is
  arbitrary.
- src/drivers/gfcan, src/drivers/nrf, and the TWS and GF clients.
- Scaling to floating point: records hold the raw integers (mV, mA, mAh, percent). The `serial_number` field,
  which no SCUD read fills, is not modelled.
- Getters, logging, Python bindings, packaging, `main` and its arguments: nothing to prove beyond their text.
- `send_read_request`, `write_multiple_registers`, `set_discharge_output`, `read_version_info`: single frames or
  single fields, which would only add easy members.
- Ccitt.Crc16Ccitt: the statements of the loop body are named functions, one for each xor.
- Modbus.CalculateCrc: the tables are sixteen rows of sixteen; the two copies in the source are one here.
- ScudProtocol.ScudBmsProtocol.ReadFrame: the expected length is one byte, and the wall clock is an event, the
  deadline, that may come at any point between two reads.
- ScudProtocol.ScudBmsProtocol.SendQuery: the flush before the query and the pause after it.
- OtaUpdater.BmsOta.Run: a port that does not open, errors while writing, and sleeps; the clock is an arbitrary
  choice at each turn, bounded by `patience`; bytes that `reset_input_buffer` discards are simply not among the
  events.
- Daemon.BmsDaemon.Run: the signals that end the daemon, errors of accept, and short writes (those are the subject
  of `ClientTiming`); connections are told apart by numbers that do not recur, where the source reuses descriptors
  it has closed.
- Daemon.BmsDaemon.Broadcast: assumes that a write to a client that hung up returns an error. The source handles
  only SIGINT and SIGTERM (src/bms_daemon.cpp:252-253), so that holds only where the environment ignores SIGPIPE;
  elsewhere such a write ends the daemon.
- ClientReader.ScudBmsDriver.ReaderLoop: several records that one arrival completes share its clock reading.
- ClientFreshness.RunInv: one caller of each kind at a time, and accesses in one order that all threads agree on.
- ClientTiming.NoSplicing: the bounds on delivery, interruptions and scheduling are assumptions about the machine.
- ClientPipeline.CacheIsPublished: the layout of a record in memory is any function to 126 bytes.
- The daemon's `Io.cells` is more general than TWS and GF, whose I/O reads leave the cell fields alone.
