/** The round loop of the daemon. */
module Daemon {
  import opened Wrappers
  import opened Battery
  import opened Serial
  import ScudProtocol

  // ---- what a round is given ---------------------------------------------------------------------------

  datatype Basic = Basic(voltage: int, current: int, temperature: int, protectStatus: int, workState: int,
                         maxCellVoltage: int, minCellVoltage: int)
  datatype Capacity = Capacity(percentage: int, charge: int, capacity: int, designCapacity: int, soh: int)
  /** The IO read of some protocols also fills in the cell extremes; that of TWS and GF does not. */
  datatype Io = Io(ioState: int, powerOn: int, cells: Option<(int, int)>)

  /** What is read in one round; None is a failed read. TWS and GF read three groups of fields, SCUD485
      a whole record or nothing. */
  datatype Readings =
    | Fields(basic: Option<Basic>, capacity: Option<Capacity>, io: Option<Io>)
    | Snapshot(record: Option<BatteryStatus>)

  /** A read fills its own fields of the raw record when it succeeds, and nothing otherwise. */

  function ReadBasic(raw: BatteryStatus, b: Option<Basic>): BatteryStatus {
    match b
    case None => raw
    case Some(v) =>
      raw.(voltage := v.voltage, current := v.current, temperature := v.temperature,
           protectStatus := v.protectStatus, workState := v.workState,
           maxCellVoltage := v.maxCellVoltage, minCellVoltage := v.minCellVoltage)
  }

  function ReadCapacity(raw: BatteryStatus, c: Option<Capacity>): BatteryStatus {
    match c
    case None => raw
    case Some(v) =>
      raw.(percentage := v.percentage, charge := v.charge, capacity := v.capacity,
           designCapacity := v.designCapacity, soh := v.soh)
  }

  function ReadIo(raw: BatteryStatus, io: Option<Io>): BatteryStatus {
    match io
    case None => raw
    case Some(v) =>
      var filled := raw.(ioState := v.ioState, powerOn := v.powerOn);
      match v.cells
      case None => filled
      case Some((high, low)) => filled.(maxCellVoltage := high, minCellVoltage := low)
  }

  /** One round: the reads, the clients whose write fails, and a client that connects afterwards. */
  datatype Round = Round(readings: Readings, gone: set<int>, accepted: Option<int>)

  predicate Succeeds(r: Readings) {
    match r
    case Fields(b, c, io) => b.Some? || c.Some? || io.Some?
    case Snapshot(record) => record.Some?
  }

  /** All rounds read the one kind of protocol. */
  predicate OfKind(h: seq<Round>, snapshots: bool) {
    forall i | 0 <= i < |h| :: h[i].readings.Snapshot? == snapshots
  }

  // ---- what a history of rounds comes to ---------------------------------------------------------------

  /** The most recent round whose read of the group succeeded. */
  function LastBasic(h: seq<Round>): Option<Basic> {
    if h == [] then None
    else if h[|h| - 1].readings.Fields? && h[|h| - 1].readings.basic.Some? then h[|h| - 1].readings.basic
    else LastBasic(h[..|h| - 1])
  }

  function LastCapacity(h: seq<Round>): Option<Capacity> {
    if h == [] then None
    else if h[|h| - 1].readings.Fields? && h[|h| - 1].readings.capacity.Some? then h[|h| - 1].readings.capacity
    else LastCapacity(h[..|h| - 1])
  }

  function LastIo(h: seq<Round>): Option<Io> {
    if h == [] then None
    else if h[|h| - 1].readings.Fields? && h[|h| - 1].readings.io.Some? then h[|h| - 1].readings.io
    else LastIo(h[..|h| - 1])
  }

  /** The cell extremes a round brings: those of the raw record, when the basic read succeeded, or else
      when the IO read left some there. */
  function Extremes(r: Readings): Option<(int, int)> {
    if r.Snapshot? then None else
    var raw :=
      if r.io.Some? && r.io.value.cells.Some? then r.io.value.cells.value
      else if r.basic.Some? then (r.basic.value.maxCellVoltage, r.basic.value.minCellVoltage)
      else (0, 0);
    if r.basic.Some? || (r.io.Some? && raw.0 > 0) then Some(raw) else None
  }

  function LastExtremes(h: seq<Round>): Option<(int, int)> {
    if h == [] then None
    else if Extremes(h[|h| - 1].readings).Some? then Extremes(h[|h| - 1].readings)
    else LastExtremes(h[..|h| - 1])
  }

  const NO_BASIC := Basic(0, 0, 0, 0, 0, 0, 0)
  const NO_CAPACITY := Capacity(0, 0, 0, 0, 0)
  const NO_IO := Io(0, 0, None)

  function Or<T>(o: Option<T>, default: T): T { match o case None => default case Some(v) => v }

  /** The record carried forward: each group is that of the last round that brought it, zero before the
      first. */
  function FieldsCarried(h: seq<Round>): BatteryStatus {
    var b, e := Or(LastBasic(h), NO_BASIC), Or(LastExtremes(h), (0, 0));
    var c, io := Or(LastCapacity(h), NO_CAPACITY), Or(LastIo(h), NO_IO);
    BatteryStatus(b.voltage, b.current, b.temperature,
                  c.percentage, c.charge, c.capacity, c.designCapacity,
                  b.protectStatus, b.workState, e.0, e.1, 0, 0, c.soh, 0, io.ioState, io.powerOn)
  }

  function LastSnapshot(h: seq<Round>): Option<BatteryStatus> {
    if h == [] then None
    else if h[|h| - 1].readings.Snapshot? && h[|h| - 1].readings.record.Some? then h[|h| - 1].readings.record
    else LastSnapshot(h[..|h| - 1])
  }

  /** The record that is broadcast after the rounds h. */
  function Carried(h: seq<Round>, snapshots: bool): BatteryStatus {
    if snapshots then Or(LastSnapshot(h), EMPTY) else FieldsCarried(h)
  }

  /** A record with the groups of one round in place. */
  function Merged(status: BatteryStatus, r: Readings): BatteryStatus
    requires r.Fields?
  {
    var s1 := match r.basic
      case None => status
      case Some(b) => status.(voltage := b.voltage, current := b.current, temperature := b.temperature,
                              protectStatus := b.protectStatus, workState := b.workState, cycles := 0);
    var s2 := match Extremes(r)
      case None => s1
      case Some(e) => s1.(maxCellVoltage := e.0, minCellVoltage := e.1);
    var s3 := match r.capacity
      case None => s2
      case Some(c) => s2.(percentage := c.percentage, charge := c.charge, capacity := c.capacity,
                          designCapacity := c.designCapacity, soh := c.soh);
    match r.io
    case None => s3
    case Some(io) => s3.(ioState := io.ioState, powerOn := io.powerOn)
  }

  lemma MergeCarries(h: seq<Round>, r: Round)
    requires r.readings.Fields?
    ensures Merged(FieldsCarried(h), r.readings) == FieldsCarried(h + [r])
  {
    assert (h + [r])[..|h|] == h;
  }

  /** How many rounds at the end failed one after the other. */
  function Failing(h: seq<Round>): (n: nat)
    ensures n <= |h|
    ensures forall i | |h| - n <= i < |h| :: !Succeeds(h[i].readings)
    ensures n < |h| ==> Succeeds(h[|h| - n - 1].readings)
  {
    if h == [] || Succeeds(h[|h| - 1].readings) then 0 else Failing(h[..|h| - 1]) + 1
  }

  /** The sum, over the maximal runs of failed rounds, of a fifth of their length. */
  function Reopenings(h: seq<Round>): nat {
    if h == [] then 0
    else
      var n := Failing(h);
      if n == 0 then Reopenings(h[..|h| - 1]) else Reopenings(h[..|h| - n]) + n / 5
  }

  /** The clients that stay: those whose write did not fail, in order. */
  function Staying(clients: seq<int>, gone: set<int>): seq<int> {
    if clients == [] then []
    else
      var c := clients[|clients| - 1];
      Staying(clients[..|clients| - 1], gone) + if c in gone then [] else [c]
  }

  function Connected(h: seq<Round>): seq<int> {
    if h == [] then []
    else
      var r, before := h[|h| - 1], Connected(h[..|h| - 1]);
      (if Succeeds(r.readings) then Staying(before, r.gone) else before)
        + (match r.accepted case None => [] case Some(c) => [c])
  }

  /** All a client has been sent: from the rounds after the one that accepted it, the records published
      until its first failed write. */
  function Inbox(h: seq<Round>, snapshots: bool, c: int): seq<BatteryStatus> {
    if h == [] then []
    else
      var r, before := h[|h| - 1], h[..|h| - 1];
      Inbox(before, snapshots, c)
        + if Succeeds(r.readings) && c in Connected(before) && c !in r.gone then [Carried(h, snapshots)] else []
  }

  /** All connections there have been. */
  function Ids(h: seq<Round>): set<int> {
    if h == [] then {}
    else
      Ids(h[..|h| - 1]) + match h[|h| - 1].accepted case None => {} case Some(c) => {c}
  }

  /** Connections are told apart: none is accepted under the name of an earlier one. */
  predicate Distinct(h: seq<Round>) {
    h == []
    || (Distinct(h[..|h| - 1])
        && (h[|h| - 1].accepted.Some? ==> h[|h| - 1].accepted.value !in Ids(h[..|h| - 1])))
  }

  /** The rounds fit the daemon: of its kind, and with connections told apart. */
  predicate Acceptable(h: seq<Round>, snapshots: bool) { OfKind(h, snapshots) && Distinct(h) }

  predicate Counted(h: seq<Round>, failures: int, reopened: nat) {
    failures == Failing(h) % 5 && reopened == Reopenings(h)
  }

  predicate Delivered(h: seq<Round>, snapshots: bool, inbox: map<int, seq<BatteryStatus>>) {
    inbox.Keys == Ids(h) && Distinct(h) && forall c | c in inbox :: inbox[c] == Inbox(h, snapshots, c)
  }

  // ---- the daemon --------------------------------------------------------------------------------------

  class BmsDaemon {
    const snapshots: bool
    var statusToSend: BatteryStatus
    var failureCount: int
    var reopened: nat
    var clients: seq<int>
    var inbox: map<int, seq<BatteryStatus>>
    ghost var history: seq<Round>

    ghost predicate Valid()
      reads this
    {
      && OfKind(history, snapshots)
      && statusToSend == Carried(history, snapshots)
      && Counted(history, failureCount, reopened)
      && clients == Connected(history) && Delivered(history, snapshots, inbox)
    }

    /** Which kind of protocol the daemon is for is fixed when it is built. */
    constructor (snapshots: bool)
      ensures Valid() && history == [] && this.snapshots == snapshots
    {
      this.snapshots := snapshots;
      statusToSend, failureCount, reopened, clients, inbox, history := EMPTY, 0, 0, [], map[], [];
    }

    /** The field-by-field branch of the loop: three reads into one raw record, and the groups that were
        read carried over. */
    method MergeFields(readings: Readings) returns (okRead: bool)
      requires readings.Fields?
      modifies this`statusToSend
      ensures okRead == Succeeds(readings)
      ensures statusToSend == Merged(old(statusToSend), readings)
    {
      var raw := EMPTY;
      raw := ReadBasic(raw, readings.basic);
      var okBasic := readings.basic.Some?;
      raw := ReadCapacity(raw, readings.capacity);
      var okCapacity := readings.capacity.Some?;
      raw := ReadIo(raw, readings.io);
      var okIoState := readings.io.Some?;
      okRead := okBasic || okCapacity || okIoState;
      if okRead {
        if okBasic {
          statusToSend := statusToSend.(
            voltage := raw.voltage, current := raw.current, temperature := raw.temperature,
            protectStatus := raw.protectStatus, workState := raw.workState,
            maxCellVoltage := raw.maxCellVoltage, minCellVoltage := raw.minCellVoltage,
            cycles := raw.cycles);
        }
        if okCapacity {
          statusToSend := statusToSend.(
            percentage := raw.percentage, charge := raw.charge, capacity := raw.capacity,
            designCapacity := raw.designCapacity, soh := raw.soh);
        }
        if okIoState {
          statusToSend := statusToSend.(ioState := raw.ioState, powerOn := raw.powerOn);
          if !okBasic && raw.maxCellVoltage > 0 {
            statusToSend := statusToSend.(
              maxCellVoltage := raw.maxCellVoltage, minCellVoltage := raw.minCellVoltage);
          }
        }
      }
    }

    /** The broadcast: a client whose write fails is erased on the spot. */
    method Broadcast(gone: set<int>)
      requires NoRepeats(clients)
      requires forall c | c in clients :: c in inbox
      modifies this`clients, this`inbox
      ensures clients == Staying(old(clients), gone)
      ensures Served(old(inbox), old(clients), gone, statusToSend, inbox)
    {
      hide Staying, NoRepeats, Served;
      var it := 0;
      ghost var all, was, n := clients, inbox, 0;
      NoneServed(was, all, gone, statusToSend);
      StayingNone(all, gone);
      while it < |clients|
        invariant n <= |all| && clients == Staying(all[..n], gone) + all[n..]
        invariant it == |Staying(all[..n], gone)|
        invariant Served(was, all[..n], gone, statusToSend, inbox)
        decreases |all| - n
      {
        ghost var staying := Staying(all[..n], gone);
        var c := clients[it];
        StayingOne(all, n, gone);
        AtCursor(staying, all, n, clients);
        OneServed(was, all, n, gone, statusToSend, inbox);
        if c in gone {
          clients := clients[..it] + clients[it + 1..];
        } else {
          inbox := inbox[c := inbox[c] + [statusToSend]];
          it := it + 1;
        }
        n := n + 1;
      }
      assert all[..n] == all;
      assert clients == Staying(all, gone) + all[n..];
    }

    /** A failed round: after five in a row the port is closed and opened again. */
    method CountFailure()
      modifies this`failureCount, this`reopened
      ensures old(failureCount) < 4 ==> failureCount == old(failureCount) + 1 && reopened == old(reopened)
      ensures old(failureCount) >= 4 ==> failureCount == 0 && reopened == old(reopened) + 1
    {
      failureCount := failureCount + 1;
      if failureCount >= 5 {
        reopened := reopened + 1;
        failureCount := 0;
      }
    }

    /** One turn of the loop. */
    method PlayRound(r: Round)
      requires Valid() && r.readings.Snapshot? == snapshots
      requires r.accepted.Some? ==> r.accepted.value !in Ids(history)
      modifies this
      ensures Valid() && history == old(history) + [r]
    {
      hide Carried, Counted, Delivered, Staying, Connected, Served, Merged;
      ghost var h := history;
      var okRead: bool;
      if snapshots {
        okRead := r.readings.record.Some?;
        if okRead { statusToSend := r.readings.record.value; }
      } else {
        okRead := MergeFields(r.readings);
      }
      StatusStep(h, r, snapshots, statusToSend);
      CountStep(h, r, failureCount, reopened);
      ConnectedAreIds(h, snapshots, inbox);
      if okRead {
        failureCount := 0;
        Broadcast(r.gone);
      } else {
        CountFailure();
      }
      DeliveryStep(h, r, snapshots, old(inbox), inbox, statusToSend);
      ConnectedStep(h, r);
      match r.accepted {
        case None =>
        case Some(c) =>
          clients := clients + [c];
          inbox := inbox[c := []];
      }
      history := history + [r];
    }

    /** The loop, for as long as the daemon runs. */
    method Run(rounds: seq<Round>)
      requires Valid() && history == [] && Acceptable(rounds, snapshots)
      modifies this
      ensures Valid() && history == rounds
    {
      hide Valid, Carried, Delivered, Connected;
      assert rounds[..0] == [];
      for i := 0 to |rounds|
        invariant Valid() && history == rounds[..i]
      {
        DistinctPrefix(rounds, i + 1);
        assert rounds[..i + 1][..i] == rounds[..i];
        PlayRound(rounds[i]);
        assert rounds[..i + 1] == rounds[..i] + [rounds[i]];
      }
      assert rounds[..|rounds|] == rounds;
    }

    /** A round of the SCUD485 daemon, on an open port or on one that could not be reopened; a query may fail
        to go out. `wrote` says which did. */
    method ScudRound(proto: ScudProtocol.ScudBmsProtocol, input: ScudInput) returns (ghost wrote: ScudProtocol.Wrote)
      requires Valid() && snapshots
      requires input.accepted.Some? ==> input.accepted.value !in Ids(history)
      modifies this, proto.serial
      ensures Valid() && |history| == |old(history)| + 1 && history[..|old(history)|] == old(history)
      ensures PlaysInput(history[|old(history)|], input)
      ensures wrote.userInfo || wrote.summary ==> old(proto.serial.isOpen)
      ensures ScudProtocol.RoundRead(old(proto.serial.incoming), wrote, history[|old(history)|].readings.record)
      ensures statusToSend == Or(history[|old(history)|].readings.record, old(statusToSend))
      ensures proto.serial.incoming == ScudProtocol.RoundLeft(old(proto.serial.incoming), wrote)
      ensures proto.serial.isOpen == PortAfter(history, old(proto.serial.isOpen), input.opens)
    {
      hide ScudProtocol.RoundRead, ScudProtocol.RoundLeft, ScudProtocol.Sends, ScudProtocol.Received;
      hide Valid, PortAfter, Carried, Reopenings, Ids, ScudProtocol.QueryFrame;
      var ok, raw;
      ok, raw, wrote := proto.ReadAll(EMPTY);
      var r := Round(Snapshot(if ok then Some(raw) else None), input.gone, input.accepted);
      SnapshotStep(history, r);
      ValidSays();
      var before := reopened;
      ghost var h := history;
      PlayRound(r);
      ValidSays();
      PortIs(h, r, proto.serial.isOpen, input.opens);
      if reopened > before { proto.serial.Reopen(input.opens); }
    }

    lemma ValidSays()
      requires Valid()
      ensures statusToSend == Carried(history, snapshots) && reopened == Reopenings(history)
    {}

    /** The loop of the SCUD485 daemon: every record that any client is ever sent is the snapshot of one 0x61
        payload and at most one 0x31 payload, which were received in the very round that sent it. */
    method RunScud(proto: ScudProtocol.ScudBmsProtocol, inputs: seq<ScudInput>) returns (ghost trace: Trace)
      requires Valid() && snapshots && history == [] && AcceptsOnce(inputs)
      modifies this, proto.serial
      ensures Valid() && PlaysInputs(history, inputs) && IsScudRun(history, inputs, trace)
      ensures trace.heard[0] == old(proto.serial.incoming) && trace.open[0] == old(proto.serial.isOpen)
      ensures forall c | c in inbox :: forall record | record in inbox[c] :: OfOneRound(history, trace, c, record)
    {
      hide AcceptsOnce, PlaysInput, PortAfter, Inbox, Acceptable, ScudProtocol.RoundRead, ScudProtocol.RoundLeft;
      hide Valid, IsScudRun, IsScudRound, PlaysInputs, OfOneRound;
      trace := Trace([proto.serial.incoming], [proto.serial.isOpen], []);
      ScudRunStarts(inputs, trace);
      for i := 0 to |inputs|
        invariant Valid() && |history| == i
        invariant PlaysInputs(history, inputs[..i]) && IsScudRun(history, inputs[..i], trace)
        invariant |trace.heard| == |trace.open| == i + 1
        invariant trace.heard[0] == old(proto.serial.incoming) && trace.open[0] == old(proto.serial.isOpen)
        invariant trace.heard[i] == proto.serial.incoming && trace.open[i] == proto.serial.isOpen
      {
        ghost var h := history;
        NewcomerIsNew(h, inputs, i);
        ghost var wrote := ScudRound(proto, inputs[i]);
        assert history == h + [history[i]];
        ScudRunGrows(h, history[i], inputs, trace, wrote, proto.serial.incoming, proto.serial.isOpen);
        trace := Longer(trace, wrote, proto.serial.incoming, proto.serial.isOpen);
      }
      assert inputs[..|inputs|] == inputs;
      TraceBegins(history, inputs, trace);
      InboxesFollow();
      forall c, record | c in inbox && record in inbox[c] ensures OfOneRound(history, trace, c, record) {
        InboxOfRounds(history, inputs, trace, c, record);
      }
    }

    lemma InboxesFollow()
      requires Valid() && snapshots
      ensures OfKind(history, true) && forall c | c in inbox :: inbox[c] == Inbox(history, true, c)
    {}
  }

  // ---- runs of the SCUD485 daemon ----------------------------------------------------------------------

  /** What a round is given besides the events on its port. */
  datatype ScudInput = ScudInput(gone: set<int>, accepted: Option<int>, opens: bool)

  predicate PlaysInput(r: Round, input: ScudInput) {
    r.readings.Snapshot? && r.gone == input.gone && r.accepted == input.accepted
  }

  predicate PlaysInputs(h: seq<Round>, inputs: seq<ScudInput>) {
    |h| == |inputs| && forall i | 0 <= i < |h| :: PlaysInput(h[i], inputs[i])
  }

  predicate AcceptsOnce(inputs: seq<ScudInput>) {
    forall i, j | 0 <= i < j < |inputs| && inputs[i].accepted.Some? :: inputs[i].accepted != inputs[j].accepted
  }

  /** The port after the last round of h: closed and opened again when the round was a fifth failure. */
  predicate PortAfter(h: seq<Round>, open: bool, opens: bool)
    requires h != []
  {
    if Reopenings(h) > Reopenings(h[..|h| - 1]) then opens else open
  }

  /** The events each round finds on its port, and whether the port is open, with what the last one leaves;
      and which queries went out in each. */
  datatype Trace = Trace(heard: seq<seq<Event>>, open: seq<bool>, wrote: seq<ScudProtocol.Wrote>)

  function Longer(t: Trace, wrote: ScudProtocol.Wrote, left: seq<Event>, isOpen: bool): Trace {
    Trace(t.heard + [left], t.open + [isOpen], t.wrote + [wrote])
  }

  lemma PortIs(h: seq<Round>, r: Round, open: bool, opens: bool)
    ensures PortAfter(h + [r], open, opens) == if Reopenings(h + [r]) > Reopenings(h) then opens else open
  {
    hide Reopenings;
    assert (h + [r])[..|h|] == h;
  }

  ghost predicate IsScudRun(h: seq<Round>, inputs: seq<ScudInput>, t: Trace) {
    && |h| == |inputs| == |t.wrote| && |t.heard| == |t.open| == |h| + 1
    && forall i | 0 <= i < |h| :: RoundAt(h, inputs, t, i)
  }

  ghost predicate RoundAt(h: seq<Round>, inputs: seq<ScudInput>, t: Trace, i: nat)
    requires i < |h| && i < |inputs| && i < |t.wrote| && i + 1 < |t.heard| && i + 1 < |t.open|
  {
    IsScudRound(h[..i + 1], inputs[i], t.wrote[i], t.heard[i], t.open[i], t.heard[i + 1], t.open[i + 1])
  }

  /** The last round of h. */
  ghost predicate IsScudRound(h: seq<Round>, input: ScudInput, wrote: ScudProtocol.Wrote,
                              ev: seq<Event>, open: bool, left: seq<Event>, openThen: bool)
    requires h != []
  {
    var r := h[|h| - 1];
    && r.readings.Snapshot? && ScudProtocol.RoundRead(ev, wrote, r.readings.record)
    && (wrote.userInfo || wrote.summary ==> open)
    && left == ScudProtocol.RoundLeft(ev, wrote) && openThen == PortAfter(h, open, input.opens)
  }

  /** Round k sends its record to the client c. */
  predicate SendsTo(h: seq<Round>, k: nat, c: int)
    requires k < |h|
  {
    Succeeds(h[k].readings) && c in Connected(h[..k]) && c !in h[k].gone
  }

  /** The record is what one of the rounds read, and that round sent it to the client. */
  ghost predicate OfOneRound(h: seq<Round>, t: Trace, c: int, record: BatteryStatus)
    requires |t.heard| > |h| && |t.wrote| == |h|
  {
    exists k | 0 <= k < |h| :: SendsTo(h, k, c) && ScudProtocol.RoundRead(t.heard[k], t.wrote[k], Some(record))
  }

  lemma ScudRunStarts(inputs: seq<ScudInput>, t: Trace)
    requires |t.heard| == |t.open| == 1 && t.wrote == []
    ensures IsScudRun([], inputs[..0], t) && PlaysInputs([], inputs[..0])
  {}

  lemma TraceBegins(h: seq<Round>, inputs: seq<ScudInput>, t: Trace)
    requires IsScudRun(h, inputs, t)
    ensures |t.heard| > |h| && |t.wrote| == |h| && t.open != []
  {}

  lemma ScudRunGrows(h: seq<Round>, r: Round, inputs: seq<ScudInput>, t: Trace, wrote: ScudProtocol.Wrote,
                     left: seq<Event>, isOpen: bool)
    requires |h| < |inputs| && PlaysInputs(h, inputs[..|h|]) && IsScudRun(h, inputs[..|h|], t)
    requires PlaysInput(r, inputs[|h|]) && ScudProtocol.RoundRead(t.heard[|h|], wrote, r.readings.record)
    requires wrote.userInfo || wrote.summary ==> t.open[|h|]
    requires left == ScudProtocol.RoundLeft(t.heard[|h|], wrote)
    requires isOpen == PortAfter(h + [r], t.open[|h|], inputs[|h|].opens)
    ensures PlaysInputs(h + [r], inputs[..|h| + 1])
    ensures IsScudRun(h + [r], inputs[..|h| + 1], Longer(t, wrote, left, isOpen))
  {
    hide IsScudRound, ScudProtocol.RoundRead, ScudProtocol.RoundLeft, PortAfter;
    var k, u, n := h + [r], Longer(t, wrote, left, isOpen), |h|;
    var played := inputs[..n + 1];
    forall i | 0 <= i < n + 1 ensures RoundAt(k, played, u, i) {
      if i < n {
        RoundStays(h, r, inputs, t, u, i);
      } else {
        RoundIsNew(h, r, inputs[n], t, wrote, left, isOpen);
        assert k[..n + 1] == k;
      }
    }
  }

  lemma RoundStays(h: seq<Round>, r: Round, inputs: seq<ScudInput>, t: Trace, u: Trace, i: nat)
    requires i < |h| < |inputs| && |t.wrote| == |h| && |t.heard| == |t.open| == |h| + 1
    requires t.heard <= u.heard && t.open <= u.open && t.wrote <= u.wrote && RoundAt(h, inputs[..|h|], t, i)
    ensures RoundAt(h + [r], inputs[..|h| + 1], u, i)
  {
    hide IsScudRound;
    assert (h + [r])[..i + 1] == h[..i + 1];
  }

  lemma RoundIsNew(h: seq<Round>, r: Round, input: ScudInput, t: Trace, wrote: ScudProtocol.Wrote,
                   left: seq<Event>, isOpen: bool)
    requires |t.heard| == |t.open| == |h| + 1
    requires PlaysInput(r, input) && ScudProtocol.RoundRead(t.heard[|h|], wrote, r.readings.record)
    requires wrote.userInfo || wrote.summary ==> t.open[|h|]
    requires left == ScudProtocol.RoundLeft(t.heard[|h|], wrote)
    requires isOpen == PortAfter(h + [r], t.open[|h|], input.opens)
    ensures IsScudRound(h + [r], input, wrote, t.heard[|h|], t.open[|h|], left, isOpen)
  {
    hide ScudProtocol.RoundRead, ScudProtocol.RoundLeft, PortAfter;
  }

  lemma {:induction false} IdsAreAccepted(h: seq<Round>, c: int)
    ensures c in Ids(h) ==> exists i | 0 <= i < |h| :: h[i].accepted == Some(c)
    decreases |h|
  {
    if h != [] { IdsAreAccepted(h[..|h| - 1], c); }
  }

  lemma NewcomerIsNew(h: seq<Round>, inputs: seq<ScudInput>, n: nat)
    requires n < |inputs| && PlaysInputs(h, inputs[..n]) && AcceptsOnce(inputs)
    ensures inputs[n].accepted.Some? ==> inputs[n].accepted.value !in Ids(h)
  {
    if inputs[n].accepted.Some? {
      IdsAreAccepted(h, inputs[n].accepted.value);
      forall i | 0 <= i < n ensures h[i].accepted != inputs[n].accepted { assert PlaysInput(h[i], inputs[..n][i]); }
    }
  }

  /** What a client is sent are records of rounds that sent it something. */
  lemma {:induction false} InboxRecord(h: seq<Round>, c: int, record: BatteryStatus) returns (k: nat)
    requires OfKind(h, true) && record in Inbox(h, true, c)
    ensures k < |h| && SendsTo(h, k, c)
    ensures h[k].readings.Snapshot? && h[k].readings.record == Some(record)
    decreases |h|
  {
    hide Connected;
    var n := |h| - 1;
    var before := h[..n];
    if record in Inbox(before, true, c) {
      k := InboxRecord(before, c, record);
      assert before[..k] == h[..k];
    } else {
      k := n;
    }
  }

  lemma InboxOfRounds(h: seq<Round>, inputs: seq<ScudInput>, t: Trace, c: int, record: BatteryStatus)
    requires IsScudRun(h, inputs, t) && OfKind(h, true) && record in Inbox(h, true, c)
    ensures OfOneRound(h, t, c, record)
  {
    hide ScudProtocol.RoundRead, ScudProtocol.RoundLeft, PortAfter, Inbox, SendsTo;
    var k := InboxRecord(h, c, record);
    assert RoundAt(h, inputs, t, k);
    assert h[..k + 1][k] == h[k];
  }

  /** The client at the cursor, the list without it, and the list with it passed. */
  lemma AtCursor(staying: seq<int>, all: seq<int>, n: nat, clients: seq<int>)
    requires n <= |all| && clients == staying + all[n..] && |staying| < |clients|
    ensures n < |all| && clients[|staying|] == all[n]
    ensures clients[..|staying|] + clients[|staying| + 1..] == (staying + []) + all[n + 1..]
    ensures clients == (staying + [all[n]]) + all[n + 1..]
  {}

  predicate NoRepeats(clients: seq<int>) {
    forall i, j | 0 <= i < j < |clients| :: clients[i] != clients[j]
  }

  /** Each of the clients still there got the record, and no one else got anything. */
  predicate Served(was: map<int, seq<BatteryStatus>>, clients: seq<int>, gone: set<int>, record: BatteryStatus,
                   inbox: map<int, seq<BatteryStatus>>)
  {
    && inbox.Keys == was.Keys
    && forall c | c in inbox :: inbox[c] == was[c] + if c in clients && c !in gone then [record] else []
  }

  lemma NoneServed(was: map<int, seq<BatteryStatus>>, all: seq<int>, gone: set<int>, record: BatteryStatus)
    ensures Served(was, all[..0], gone, record, was)
  {}

  lemma OneServed(was: map<int, seq<BatteryStatus>>, all: seq<int>, n: nat, gone: set<int>, record: BatteryStatus,
                  inbox: map<int, seq<BatteryStatus>>)
    requires n < |all| && NoRepeats(all) && Served(was, all[..n], gone, record, inbox) && all[n] in was
    ensures all[n] in inbox
    ensures Served(was, all[..n + 1], gone, record,
                   if all[n] in gone then inbox else inbox[all[n] := inbox[all[n]] + [record]])
  {
    var c := all[n];
    assert all[..n + 1] == all[..n] + [c];
    assert c !in all[..n];
    var after := if c in gone then inbox else inbox[c := inbox[c] + [record]];
    forall x | x in after
      ensures after[x] == was[x] + if x in all[..n + 1] && x !in gone then [record] else []
    {
      assert x in all[..n + 1] <==> x in all[..n] || x == c;
    }
  }

  lemma StayingNone(all: seq<int>, gone: set<int>)
    ensures Staying(all[..0], gone) == [] && all[0..] == all
  {}

  lemma StayingOne(all: seq<int>, n: nat, gone: set<int>)
    requires n < |all|
    ensures Staying(all[..n + 1], gone) == Staying(all[..n], gone) + if all[n] in gone then [] else [all[n]]
  {
    assert all[..n + 1][..n] == all[..n];
  }

  // ---- one round more ----------------------------------------------------------------------------------

  lemma StatusStep(h: seq<Round>, r: Round, snapshots: bool, status: BatteryStatus)
    requires OfKind(h, snapshots) && r.readings.Snapshot? == snapshots
    requires if snapshots then status == Or(r.readings.record, Carried(h, snapshots))
             else status == Merged(Carried(h, snapshots), r.readings)
    ensures OfKind(h + [r], snapshots) && status == Carried(h + [r], snapshots)
  {
    if snapshots {
      assert (h + [r])[..|h|] == h;
    } else {
      MergeCarries(h, r);
    }
  }

  lemma SnapshotStep(h: seq<Round>, r: Round)
    requires r.readings.Snapshot?
    ensures Carried(h + [r], true) == Or(r.readings.record, Carried(h, true))
  {
    assert (h + [r])[..|h|] == h;
  }

  lemma {:induction false} DistinctPrefix(h: seq<Round>, n: nat)
    requires Distinct(h) && n <= |h|
    ensures Distinct(h[..n])
    decreases |h|
  {
    if n == |h| {
      assert h[..n] == h;
    } else {
      assert h[..|h| - 1][..n] == h[..n];
      DistinctPrefix(h[..|h| - 1], n);
    }
  }

  lemma {:induction false} ReopeningsSplit(h: seq<Round>)
    ensures Reopenings(h) == Reopenings(h[..|h| - Failing(h)]) + Failing(h) / 5
  {
    if Failing(h) == 0 { assert h[..|h|] == h; }
  }

  lemma FailingStep(h: seq<Round>, r: Round)
    ensures Failing(h + [r]) == if Succeeds(r.readings) then 0 else Failing(h) + 1
  {
    assert (h + [r])[..|h|] == h;
  }

  lemma ReopeningsStep(h: seq<Round>, r: Round)
    ensures Reopenings(h + [r])
         == if Succeeds(r.readings) then Reopenings(h)
            else Reopenings(h) - Failing(h) / 5 + (Failing(h) + 1) / 5
  {
    hide Succeeds, Reopenings, Failing;
    var k, n := h + [r], Failing(h);
    FailingStep(h, r);
    ReopeningsSplit(h);
    ReopeningsSplit(k);
    if Succeeds(r.readings) {
      ReopeningsUnfold(k);
      assert k[..|h|] == h;
    } else {
      assert k[..|k| - (n + 1)] == h[..|h| - n];
    }
  }

  lemma ReopeningsUnfold(h: seq<Round>)
    requires h != [] && Failing(h) == 0
    ensures Reopenings(h) == Reopenings(h[..|h| - 1])
  {
    hide Failing;
  }

  lemma CountStep(h: seq<Round>, r: Round, failures: int, reopened: nat)
    requires Counted(h, failures, reopened)
    ensures 0 <= failures < 5
    ensures Succeeds(r.readings) ==> Counted(h + [r], 0, reopened)
    ensures !Succeeds(r.readings) && failures < 4 ==> Counted(h + [r], failures + 1, reopened)
    ensures !Succeeds(r.readings) && failures == 4 ==> Counted(h + [r], 0, reopened + 1)
  {
    hide Succeeds, Failing, Reopenings;
    FailingStep(h, r);
    ReopeningsStep(h, r);
  }

  lemma {:induction false} ConnectedAreKnown(h: seq<Round>)
    requires Distinct(h)
    ensures NoRepeats(Connected(h)) && forall c | c in Connected(h) :: c in Ids(h)
    decreases |h|
  {
    if h != [] {
      var before := h[..|h| - 1];
      ConnectedAreKnown(before);
      StayingIsPart(Connected(before), h[|h| - 1].gone);
    }
  }

  lemma {:induction false} StayingIsPart(clients: seq<int>, gone: set<int>)
    requires NoRepeats(clients)
    ensures NoRepeats(Staying(clients, gone))
    ensures forall c | c in Staying(clients, gone) :: c in clients && c !in gone
    ensures forall c | c in clients && c !in gone :: c in Staying(clients, gone)
    decreases |clients|
  {
    if clients != [] {
      var n := |clients| - 1;
      StayingIsPart(clients[..n], gone);
      assert clients == clients[..n] + [clients[n]];
      assert clients[n] !in clients[..n];
    }
  }

  lemma ConnectedAreIds(h: seq<Round>, snapshots: bool, inbox: map<int, seq<BatteryStatus>>)
    requires Delivered(h, snapshots, inbox)
    ensures NoRepeats(Connected(h)) && forall c | c in Connected(h) :: c in inbox
  {
    ConnectedAreKnown(h);
  }

  lemma ConnectedStep(h: seq<Round>, r: Round)
    ensures Connected(h + [r])
         == (if Succeeds(r.readings) then Staying(Connected(h), r.gone) else Connected(h))
            + (match r.accepted case None => [] case Some(c) => [c])
  {
    assert (h + [r])[..|h|] == h;
  }

  lemma {:induction false} StrangersGetNothing(h: seq<Round>, snapshots: bool, c: int)
    requires Distinct(h) && c !in Ids(h)
    ensures Inbox(h, snapshots, c) == []
    decreases |h|
  {
    if h != [] {
      ConnectedAreKnown(h[..|h| - 1]);
      StrangersGetNothing(h[..|h| - 1], snapshots, c);
    }
  }

  lemma InboxStep(h: seq<Round>, r: Round, snapshots: bool, c: int)
    ensures Inbox(h + [r], snapshots, c)
         == Inbox(h, snapshots, c)
            + if Succeeds(r.readings) && c in Connected(h) && c !in r.gone then [Carried(h + [r], snapshots)] else []
  {
    assert (h + [r])[..|h|] == h;
  }

  lemma DeliveryStep(h: seq<Round>, r: Round, snapshots: bool, was: map<int, seq<BatteryStatus>>,
                     inbox: map<int, seq<BatteryStatus>>, record: BatteryStatus)
    requires Delivered(h, snapshots, was) && record == Carried(h + [r], snapshots)
    requires r.accepted.Some? ==> r.accepted.value !in Ids(h)
    requires if Succeeds(r.readings) then Served(was, Connected(h), r.gone, record, inbox) else inbox == was
    ensures Delivered(h + [r], snapshots,
                      match r.accepted case None => inbox case Some(c) => inbox[c := []])
  {
    hide Carried, Connected;
    var k := h + [r];
    var after := match r.accepted case None => inbox case Some(c) => inbox[c := []];
    assert k[..|h|] == h;
    ConnectedAreKnown(h);
    forall c | c in after ensures after[c] == Inbox(k, snapshots, c) {
      InboxStep(h, r, snapshots, c);
      if r.accepted == Some(c) { StrangersGetNothing(h, snapshots, c); }
    }
  }

  // ---- what is published, and who gets it --------------------------------------------------------------

  /** TWS and GF: the IO read leaves the cell fields alone. */
  predicate NoCells(h: seq<Round>) {
    forall i | 0 <= i < |h| && h[i].readings.Fields? && h[i].readings.io.Some? :: h[i].readings.io.value.cells.None?
  }

  /** Then the cell extremes are carried with the rest of the basic group. */
  lemma {:induction false} ExtremesAreBasic(h: seq<Round>)
    requires NoCells(h)
    ensures LastExtremes(h) == match LastBasic(h)
                               case None => None
                               case Some(b) => Some((b.maxCellVoltage, b.minCellVoltage))
    decreases |h|
  {
    if h != [] { ExtremesAreBasic(h[..|h| - 1]); }
  }

  /** The comment of the source promises that the backfill of the IO read cannot overwrite the extremes of
      a good basic read. Since the reads share one raw record, that holds exactly when the IO read leaves
      the cell fields alone, or writes what is there. */
  lemma BackfillKeepsBasicIff(status: BatteryStatus, b: Basic, c: Option<Capacity>, io: Option<Io>)
    ensures var published := Merged(status, Fields(Some(b), c, io));
      (published.maxCellVoltage == b.maxCellVoltage && published.minCellVoltage == b.minCellVoltage)
      <==> (io.None? || io.value.cells.None? || io.value.cells == Some((b.maxCellVoltage, b.minCellVoltage)))
  {}

  /** A round publishes when one of its reads succeeded, whichever; or, with SCUD485, when its one read did. */
  lemma PublishesIff(h: seq<Round>, r: Round, snapshots: bool)
    ensures var before, after := Published(h, snapshots), Published(h + [r], snapshots);
      match r.readings
      case Fields(b, c, io) =>
        if b.Some? || c.Some? || io.Some? then |after| == |before| + 1 && before == after[..|before|]
        else after == before
      case Snapshot(record) =>
        if record.Some? then |after| == |before| + 1 && before == after[..|before|] else after == before
  {
    hide Carried;
    assert (h + [r])[..|h|] == h;
  }

  /** Round k is the last one whose read of the group succeeded. */
  predicate LastRead(h: seq<Round>, k: nat, group: Readings -> bool) {
    && k < |h| && group(h[k].readings)
    && forall i | k < i < |h| :: !group(h[i].readings)
  }

  predicate ReadsBasic(r: Readings) { r.Fields? && r.basic.Some? }
  predicate ReadsCapacity(r: Readings) { r.Fields? && r.capacity.Some? }
  predicate ReadsIo(r: Readings) { r.Fields? && r.io.Some? }

  lemma {:induction false} LastBasicIs(h: seq<Round>, k: nat)
    requires LastRead(h, k, ReadsBasic)
    ensures LastBasic(h) == h[k].readings.basic
    decreases |h|
  {
    if k < |h| - 1 { LastBasicIs(h[..|h| - 1], k); }
  }

  lemma {:induction false} LastCapacityIs(h: seq<Round>, k: nat)
    requires LastRead(h, k, ReadsCapacity)
    ensures LastCapacity(h) == h[k].readings.capacity
    decreases |h|
  {
    if k < |h| - 1 { LastCapacityIs(h[..|h| - 1], k); }
  }

  lemma {:induction false} LastIoIs(h: seq<Round>, k: nat)
    requires LastRead(h, k, ReadsIo)
    ensures LastIo(h) == h[k].readings.io
    decreases |h|
  {
    if k < |h| - 1 { LastIoIs(h[..|h| - 1], k); }
  }

  lemma {:induction false} NeverRead(h: seq<Round>)
    ensures (forall i | 0 <= i < |h| :: !ReadsBasic(h[i].readings)) ==> LastBasic(h) == None
    ensures (forall i | 0 <= i < |h| :: !ReadsCapacity(h[i].readings)) ==> LastCapacity(h) == None
    ensures (forall i | 0 <= i < |h| :: !ReadsIo(h[i].readings)) ==> LastIo(h) == None
    decreases |h|
  {
    if h != [] {
      var before := h[..|h| - 1];
      assert forall i | 0 <= i < |before| :: before[i] == h[i];
      NeverRead(before);
    }
  }

  /** What is broadcast for TWS and GF after the rounds h: each field is the one of its own group in the last
      round that read that group, and zero when no round did. */
  lemma EachFieldIsLatest(h: seq<Round>)
    requires NoCells(h)
    ensures var s := Carried(h, false);
      && (forall k: nat | LastRead(h, k, ReadsBasic) ::
            var b := h[k].readings.basic.value;
            && s.voltage == b.voltage && s.current == b.current && s.temperature == b.temperature
            && s.protectStatus == b.protectStatus && s.workState == b.workState
            && s.maxCellVoltage == b.maxCellVoltage && s.minCellVoltage == b.minCellVoltage)
      && (forall k: nat | LastRead(h, k, ReadsCapacity) ::
            var c := h[k].readings.capacity.value;
            && s.percentage == c.percentage && s.charge == c.charge && s.capacity == c.capacity
            && s.designCapacity == c.designCapacity && s.soh == c.soh)
      && (forall k: nat | LastRead(h, k, ReadsIo) ::
            s.ioState == h[k].readings.io.value.ioState && s.powerOn == h[k].readings.io.value.powerOn)
    ensures var s := Carried(h, false);
      && ((forall i | 0 <= i < |h| :: !ReadsBasic(h[i].readings)) ==>
            s.voltage == s.current == s.temperature == s.protectStatus == s.workState == 0
            && s.maxCellVoltage == s.minCellVoltage == 0)
      && ((forall i | 0 <= i < |h| :: !ReadsCapacity(h[i].readings)) ==>
            s.percentage == s.charge == s.capacity == s.designCapacity == s.soh == 0)
      && ((forall i | 0 <= i < |h| :: !ReadsIo(h[i].readings)) ==> s.ioState == s.powerOn == 0)
  {
    hide LastBasic, LastCapacity, LastIo, LastExtremes;
    ExtremesAreBasic(h);
    NeverRead(h);
    forall k: nat | LastRead(h, k, ReadsBasic) ensures LastBasic(h) == h[k].readings.basic { LastBasicIs(h, k); }
    forall k: nat | LastRead(h, k, ReadsCapacity) ensures LastCapacity(h) == h[k].readings.capacity {
      LastCapacityIs(h, k);
    }
    forall k: nat | LastRead(h, k, ReadsIo) ensures LastIo(h) == h[k].readings.io { LastIoIs(h, k); }
  }

  /** The records of the rounds that succeeded. */
  function Published(h: seq<Round>, snapshots: bool): seq<BatteryStatus> {
    if h == [] then [] else
    Published(h[..|h| - 1], snapshots)
      + if Succeeds(h[|h| - 1].readings) then [Carried(h, snapshots)] else []
  }

  /** No write to c fails after round a. */
  predicate StillThere(h: seq<Round>, a: nat, c: int) {
    forall k | a < k < |h| && Succeeds(h[k].readings) :: c !in h[k].gone
  }

  lemma PublishedStep(h: seq<Round>, r: Round, snapshots: bool)
    ensures Published(h + [r], snapshots)
         == Published(h, snapshots) + if Succeeds(r.readings) then [Carried(h + [r], snapshots)] else []
  {
    hide Carried;
    assert (h + [r])[..|h|] == h;
  }

  /** One round more for a client that is still there. */
  lemma ServedStep(h: seq<Round>, r: Round, snapshots: bool, c: int)
    requires Distinct(h) && c in Connected(h) && (Succeeds(r.readings) ==> c !in r.gone)
    ensures c in Connected(h + [r])
    ensures exists more :: Inbox(h + [r], snapshots, c) == Inbox(h, snapshots, c) + more
                        && Published(h + [r], snapshots) == Published(h, snapshots) + more
  {
    hide Carried, Connected, Inbox, Published, Staying, NoRepeats;
    ConnectedAreKnown(h);
    StayingIsPart(Connected(h), r.gone);
    ConnectedStep(h, r);
    InboxStep(h, r, snapshots, c);
    PublishedStep(h, r, snapshots);
  }

  /** A client that was accepted in round a and is still there has been sent every record published since,
      in order, each once, and nothing else. */
  lemma {:induction false} ClientGetsEveryRecord(h: seq<Round>, snapshots: bool, a: nat, c: int)
    requires Distinct(h) && a < |h| && h[a].accepted == Some(c) && StillThere(h, a, c)
    ensures c in Connected(h)
    ensures Published(h[..a + 1], snapshots) + Inbox(h, snapshots, c) == Published(h, snapshots)
    decreases |h|
  {
    hide Carried, Connected, Inbox, Published, Staying, NoRepeats;
    var n := |h| - 1;
    var before, r := h[..n], h[n];
    assert before + [r] == h;
    if a == n {
      ConnectedAreKnown(before);
      StrangersGetNothing(before, snapshots, c);
      ConnectedStep(before, r);
      InboxStep(before, r, snapshots, c);
      assert h[..a + 1] == h;
    } else {
      ClientGetsEveryRecord(before, snapshots, a, c);
      ServedStep(before, r, snapshots, c);
      assert h[..a + 1] == before[..a + 1];
    }
  }

  /** A client whose write fails is gone. */
  lemma FailedWriteErases(h: seq<Round>, r: Round, c: int)
    requires Distinct(h + [r]) && c in Connected(h) && Succeeds(r.readings) && c in r.gone
    ensures c !in Connected(h + [r]) && c in Ids(h + [r])
  {
    hide Connected, Staying, NoRepeats;
    assert (h + [r])[..|h|] == h;
    ConnectedAreKnown(h);
    StayingIsPart(Connected(h), r.gone);
    ConnectedStep(h, r);
  }

  /** Once a write to it failed, a client is sent nothing more. */
  lemma {:induction false} LostClientGetsNothing(h: seq<Round>, snapshots: bool, n: nat, c: int)
    requires Distinct(h) && n <= |h| && c in Ids(h[..n]) && c !in Connected(h[..n])
    ensures c !in Connected(h) && Inbox(h, snapshots, c) == Inbox(h[..n], snapshots, c)
    decreases |h|
  {
    hide Carried, Connected, Inbox, Staying, NoRepeats;
    if n == |h| {
      assert h[..n] == h;
    } else {
      var before, r := h[..|h| - 1], h[|h| - 1];
      assert before + [r] == h;
      assert before[..n] == h[..n];
      LostClientGetsNothing(before, snapshots, n, c);
      IdsGrow(before, n);
      ConnectedAreKnown(before);
      StayingIsPart(Connected(before), r.gone);
      ConnectedStep(before, r);
      InboxStep(before, r, snapshots, c);
    }
  }

  lemma {:induction false} IdsGrow(h: seq<Round>, n: nat)
    requires n <= |h|
    ensures Ids(h[..n]) <= Ids(h)
    decreases |h|
  {
    if n == |h| {
      assert h[..n] == h;
    } else {
      assert h[..|h| - 1][..n] == h[..n];
      IdsGrow(h[..|h| - 1], n);
    }
  }
}
