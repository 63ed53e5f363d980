/** The daemon side of the SCUD485 protocol. */
module ScudProtocol {
  import opened Wrappers
  import opened Bytes
  import opened Wire
  import opened Serial
  import opened ScudReceiver
  import Ccitt
  import opened Battery

  const QUERY_PARAM: byte := 1

  /** FE FE | CMD | 01 | 01 | CRC_H CRC_L | BB. */
  function QueryFrame(cmd: byte): seq<byte> {
    [HEAD, HEAD, cmd, 1, QUERY_PARAM] + Ccitt.WireBytes(Ccitt.Crc([cmd, 1, QUERY_PARAM])) + [TAIL]
  }

  /** What a query receives out of the events it is given, */
  function Received(t: Target, ev: seq<Event>): (data: Option<seq<byte>>)
    ensures data.Some? ==> |data.value| == t.Size()
  {
    match Scan(t, Stream(ev), 0)
    case None => None
    case Some(i) => Some(PayloadAt(t, Stream(ev), i))
  }

  /** and what it leaves. */
  function Left(t: Target, ev: seq<Event>): seq<Event> {
    match Scan(t, Stream(ev), 0)
    case None => Stopped(ev)
    case Some(i) => Rest(ev, TailAt(t, i) + 1)
  }

  predicate FrameRead(t: Target, before: seq<Event>, data: Option<seq<byte>>, after: seq<Event>) {
    data == Received(t, before) && after == Left(t, before)
  }

  /** The same said of the machine, for targets for which it is not the scan. */
  predicate MachineRead(t: Target, before: seq<Event>, data: Option<seq<byte>>, after: seq<Event>) {
    match Run(t, START, Stream(before))
    case None => data == None && after == Stopped(before)
    case Some((p, n)) => data == Some(p) && after == Rest(before, n)
  }

  lemma MachineReadIsScan(t: Target, before: seq<Event>, data: Option<seq<byte>>, after: seq<Event>)
    requires Matchable(t) && MachineRead(t, before, data, after)
    ensures FrameRead(t, before, data, after)
  {
    hide Scan, Run, Target.Size;
    StartIsScan(t, Stream(before));
  }

  /** Which of the queries of a round went out whole: 0x61, and 0x31 if it was asked. */
  datatype Wrote = Wrote(userInfo: bool, summary: bool)

  /** A round of read_all: the record it makes of the events it is given, */
  ghost predicate RoundRead(ev: seq<Event>, wrote: Wrote, record: Option<BatteryStatus>) {
    if !wrote.userInfo then record == None
    else match Received(USER_INFO, ev)
      case None => record == None
      case Some(user) =>
        && record.Some?
        && IsSnapshot(record.value, user,
                      if OmitsExtremes(user) && wrote.summary
                      then Received(SUMMARY, Left(USER_INFO, ev)) else None)
  }

  /** and the events it leaves. */
  function RoundLeft(ev: seq<Event>, wrote: Wrote): seq<Event> {
    if !wrote.userInfo then ev
    else match Received(USER_INFO, ev)
      case Some(user) =>
        if OmitsExtremes(user) && wrote.summary then Left(SUMMARY, Left(USER_INFO, ev)) else Left(USER_INFO, ev)
      case None => Left(USER_INFO, ev)
  }

  /** A frame was written, whole or, when that failed, not: a part of it at most. */
  predicate Sends(before: seq<seq<byte>>, frame: seq<byte>, whole: bool, after: seq<seq<byte>>) {
    if whole then after == before + [frame]
    else after == before || exists n | 0 <= n < |frame| :: after == before + [frame[..n]]
  }

  class ScudBmsProtocol {
    const serial: SerialPort

    constructor (serial: SerialPort)
      ensures this.serial == serial
    {
      this.serial := serial;
    }

    /** send_query: false when the port is closed, or the write fails or is short. */
    method SendQuery(cmd: byte) returns (ok: bool)
      modifies serial`sent
      ensures ok ==> serial.isOpen
      ensures Sends(old(serial.sent), QueryFrame(cmd), ok, serial.sent)
      ensures !serial.isOpen ==> serial.sent == old(serial.sent)
    {
      var crc := Ccitt.Crc16Ccitt([cmd, 1, QUERY_PARAM]);
      var frame := [HEAD, HEAD, cmd, 1, QUERY_PARAM] + Ccitt.WireBytes(crc) + [TAIL];
      var n := serial.WriteRaw(frame);
      assert frame[..|frame|] == frame == QueryFrame(cmd);
      return n == |frame|;
    }

    /** read_frame: pulls the first target frame out of whatever arrives before the deadline. */
    method ReadFrame(expectCmd: byte, expectLen: byte) returns (data: Option<seq<byte>>)
      modifies serial`incoming
      ensures serial.isOpen && Matchable(Target(expectCmd, expectLen)) ==>
                FrameRead(Target(expectCmd, expectLen), old(serial.incoming), data, serial.incoming)
      ensures serial.isOpen ==>
                MachineRead(Target(expectCmd, expectLen), old(serial.incoming), data, serial.incoming)
      ensures !serial.isOpen ==> data == None && serial.incoming == old(serial.incoming)
    {
      hide Ccitt.Checks, Ccitt.Crc, Scan, Run, Stream, Rest, Stopped, WellFormed, FrameRead, MachineRead, Pending;
      hide Join, Target.Size, Target.Prefix, Received, Left;
      if !serial.isOpen { return None; }
      ghost var t := Target(expectCmd, expectLen);
      ghost var before := serial.incoming;
      ghost var n := 0;
      var stage := Head1;
      var cmd: byte, len: byte, crcHi: byte, crcLo: byte := 0, 0, 0, 0;
      var body: seq<byte> := [];
      NothingRead(t, before);
      while true
        invariant Pending(t, before, n, State(stage, cmd, len, body, crcHi, crcLo), serial.incoming)
        decreases |serial.incoming|
      {
        ghost var st := State(stage, cmd, len, body, crcHi, crcLo);
        ghost var waiting := serial.incoming;
        var e := serial.ReadByte();
        if e.Nothing? {
          NothingArrived(t, before, n, st, waiting);
          continue;
        }
        if !e.Byte? {
          WaitIsOver(t, before, n, st, waiting);
          return None;
        }
        var byte := e.b;
        ByteArrived(t, before, n, st, waiting);
        n := n + 1;
        match stage {
          case Head1 =>
            if byte == HEAD { stage := Head2; }
            assert Step(t, st, byte) == Running(State(stage, cmd, len, body, crcHi, crcLo));
            continue;
          case Head2 =>
            if byte == HEAD {
              stage := Cmd;
              body := [];
            } else {
              stage := Head1;
            }
            assert Step(t, st, byte) == Running(State(stage, cmd, len, body, crcHi, crcLo));
            continue;
          case Cmd =>
            if byte == expectCmd {
              cmd := byte;
              stage := Len;
            } else if byte == HEAD {
              stage := Cmd;
            } else {
              stage := Head1;
            }
            assert Step(t, st, byte) == Running(State(stage, cmd, len, body, crcHi, crcLo));
            continue;
          case Len =>
            len := byte;
            if len != expectLen {
              stage := if len == HEAD then Head2 else Head1;
            } else {
              body := [];
              stage := if len == 0 then CrcHi else Payload;
            }
            assert Step(t, st, byte) == Running(State(stage, cmd, len, body, crcHi, crcLo));
            continue;
          case Payload =>
            body := body + [byte];
            if |body| == len as int { stage := CrcHi; }
            assert Step(t, st, byte) == Running(State(stage, cmd, len, body, crcHi, crcLo));
            continue;
          case CrcHi =>
            crcHi := byte;
            stage := CrcLo;
            assert Step(t, st, byte) == Running(State(stage, cmd, len, body, crcHi, crcLo));
            continue;
          case CrcLo =>
            crcLo := byte;
            stage := Tail;
            assert Step(t, st, byte) == Running(State(stage, cmd, len, body, crcHi, crcLo));
            continue;
          case Tail =>
            if cmd == expectCmd && len == expectLen && byte == TAIL {
              var computed := Ccitt.Crc16Ccitt([cmd, len] + body);
              var received := Join(crcHi, crcLo);
              Compared([cmd, len] + body, crcHi, crcLo);
              if computed == received {
                assert Step(t, st, byte) == Delivered(body);
                return Some(body);
              }
            }
            stage := if byte == HEAD then Head2 else Head1;
            assert Step(t, st, byte) == Running(State(stage, cmd, len, body, crcHi, crcLo));
            continue;
        }
      }
      data := None;
    }

    /** read_all: one 0x61 query fills the record, or nothing does; 0x31 is asked only for the cell
        extremes that 0x61 omits. */
    method ReadAll(status: BatteryStatus) returns (ok: bool, filled: BatteryStatus, ghost wrote: Wrote)
      modifies serial`incoming, serial`sent
      ensures !ok ==> filled == status
      ensures RoundRead(old(serial.incoming), wrote, if ok then Some(filled) else None)
      ensures serial.incoming == RoundLeft(old(serial.incoming), wrote)
      ensures wrote.userInfo || wrote.summary ==> serial.isOpen
      ensures !serial.isOpen ==> serial.sent == old(serial.sent)
      ensures ok && OmitsExtremes(Received(USER_INFO, old(serial.incoming)).value) ==>
                Sends(old(serial.sent) + [QueryFrame(CMD_USER_INFO)], QueryFrame(CMD_SUMMARY), wrote.summary,
                      serial.sent)
      ensures !(ok && OmitsExtremes(Received(USER_INFO, old(serial.incoming)).value)) ==>
                Sends(old(serial.sent), QueryFrame(CMD_USER_INFO), wrote.userInfo, serial.sent)
    {
      hide Received, Left, QueryFrame;
      ok, filled, wrote := false, status, Wrote(false, false);
      Sizes();
      var sent := SendQuery(CMD_USER_INFO);
      if !sent { return; }
      wrote := Wrote(true, false);
      var reply := ReadFrame(CMD_USER_INFO, USER_LEN);
      if reply.None? { return; }
      var d := reply.value;
      ok, filled := true, UserInfo(d);
      if Word(d, 12) == 0 && Word(d, 14) == 0 {
        sent := SendQuery(CMD_SUMMARY);
        wrote := Wrote(true, sent);
        var cells: Option<seq<byte>> := None;
        if sent { cells := ReadFrame(CMD_SUMMARY, SUMM_LEN); }
        if cells.Some? {
          var r := CellExtremes(CellsOf(cells.value));
          filled := WithExtremes(filled, r);
        }
      }
    }
  }

  const CMD_USER_INFO: byte := 0x61
  const CMD_SUMMARY: byte := 0x31
  const USER_LEN: byte := 28
  const SUMM_LEN: byte := 38
  const USER_INFO := Target(CMD_USER_INFO, USER_LEN)
  const SUMMARY := Target(CMD_SUMMARY, SUMM_LEN)

  lemma Sizes()
    ensures USER_INFO.Size() == USER_INFO_LEN && SUMMARY.Size() == SUMMARY_LEN
    ensures Matchable(USER_INFO) && Matchable(SUMMARY)
  {}

  function Later(n: nat, r: Option<(seq<byte>, nat)>): Option<(seq<byte>, nat)> {
    match r case None => None case Some((p, k)) => Some((p, n + k))
  }

  /** After n bytes the machine is in state st, the events `now` are still to come, and whatever it will
      deliver is what the whole stream delivers. */
  ghost predicate Pending(t: Target, before: seq<Event>, n: nat, st: State, now: seq<Event>) {
    && WellFormed(t, st)
    && Run(t, START, Stream(before)) == Later(n, Run(t, st, Stream(now)))
    && (forall m: nat | 0 < m :: Rest(before, n + m) == Rest(now, m))
    && Stopped(before) == Stopped(now)
  }

  lemma StartIsScan(t: Target, s: seq<byte>)
    requires Matchable(t)
    ensures match Scan(t, s, 0)
            case None => Run(t, START, s) == None
            case Some(i) => Run(t, START, s) == Some((PayloadAt(t, s, i), TailAt(t, i) + 1))
  {
    hide Scan, Run, Target.Size, Valid, Occurs, Step, WellFormed;
    StartIsWellFormed(t);
    RunIsScan(t, START, s);
    assert [] + s == s;
  }

  lemma StartIsWellFormed(t: Target)
    ensures WellFormed(t, START) && History(t, START) == []
  {}

  lemma FirstByte(t: Target, st: State, b: byte, s: seq<byte>)
    ensures match Step(t, st, b)
            case Delivered(p) => Run(t, st, [b] + s) == Some((p, 1))
            case Running(st') => Run(t, st, [b] + s) == Later(1, Run(t, st', s))
  {
    assert ([b] + s)[1..] == s;
  }

  lemma NothingRead(t: Target, before: seq<Event>)
    ensures Pending(t, before, 0, START, before)
  {
    hide Run;
    match Run(t, START, Stream(before)) { case None => case Some((p, k)) => }
  }

  lemma NothingArrived(t: Target, before: seq<Event>, n: nat, st: State, now: seq<Event>)
    requires Pending(t, before, n, st, now) && now != [] && now[0].Nothing?
    ensures Pending(t, before, n, st, now[1..])
  {
    hide Run, WellFormed;
    forall m: nat | 0 < m ensures Rest(before, n + m) == Rest(now[1..], m) {
      assert Rest(now, m) == Rest(now[1..], m);
    }
    assert Stream(now) == Stream(now[1..]);
  }

  lemma WaitIsOver(t: Target, before: seq<Event>, n: nat, st: State, now: seq<Event>)
    requires Pending(t, before, n, st, now) && (now == [] || Stops(now[0]))
    ensures MachineRead(t, before, None, Stopped(now))
    ensures Matchable(t) ==> FrameRead(t, before, None, Stopped(now))
    ensures now == [] ==> Stopped(now) == []
    ensures now != [] ==> Stopped(now) == now[1..]
  {
    hide Run, FrameRead;
    if Matchable(t) { MachineReadIsScan(t, before, None, Stopped(now)); }
  }

  lemma ByteArrived(t: Target, before: seq<Event>, n: nat, st: State, now: seq<Event>)
    requires Pending(t, before, n, st, now) && now != [] && now[0].Byte?
    ensures match Step(t, st, now[0].b)
            case Running(st') => Pending(t, before, n + 1, st', now[1..])
            case Delivered(p) =>
              && MachineRead(t, before, Some(p), now[1..])
              && (Matchable(t) ==> FrameRead(t, before, Some(p), now[1..]))
  {
    hide WellFormed, Run, Step, Target.Size, FrameRead;
    FirstByte(t, st, now[0].b, Stream(now[1..]));
    assert Stream(now) == [now[0].b] + Stream(now[1..]);
    assert Rest(before, n + 1) == Rest(now, 1) == now[1..];
    match Step(t, st, now[0].b) {
      case Running(st') =>
        StepKeepsWellFormed(t, st, now[0].b);
        LaterLater(n, 1, Run(t, st', Stream(now[1..])));
        RestAfterByte(before, n, now);
      case Delivered(p) =>
        if Matchable(t) { MachineReadIsScan(t, before, Some(p), now[1..]); }
    }
  }

  lemma LaterLater(m: nat, n: nat, r: Option<(seq<byte>, nat)>)
    ensures Later(m, Later(n, r)) == Later(m + n, r)
  {}

  lemma RestAfterByte(before: seq<Event>, n: nat, now: seq<Event>)
    requires forall m: nat | 0 < m :: Rest(before, n + m) == Rest(now, m)
    requires now != [] && now[0].Byte?
    ensures forall m: nat | 0 < m :: Rest(before, n + 1 + m) == Rest(now[1..], m)
  {
    forall m: nat | 0 < m ensures Rest(before, n + 1 + m) == Rest(now[1..], m) {
      assert Rest(before, n + (1 + m)) == Rest(now, 1 + m);
    }
  }

  lemma Compared(data: seq<byte>, hi: byte, lo: byte)
    ensures Ccitt.Checks(data, hi, lo) <==> Ccitt.Crc(data) == Join(hi, lo)
  {}
}
