/** The SCUD485 client under interleaving: the reader thread, a caller in is_power_on and a caller in
    is_connected, one atomic access or lock operation at a time. */
module ClientFreshness {

  /** Records are numbered in the order in which they are complete; number 0 is the zeroed cache. */
  datatype Record = Record(id: nat, session: nat, powerOn: bool)

  /** Where the reader thread is. */
  datatype Reader =
    | Disconnected
    | Opened                              // connect succeeded, connected_ not stored yet
    | Reading
    | Complete(r: Record)                 // the whole record is in `wire`
    | Writing(r: Record)                  // exclusive lock held, cached_ half written
    | Written(r: Record)
    | Stamping(r: Record, now: int)       // clock read, last_rx_us_ not stored yet
    | Closing                             // socket closed, connected_ not cleared yet
    | Cleared                             // connected_ cleared, last_rx_us_ not yet

  /** A call of is_power_on: lock, load the stamp, read the clock, read the cache, unlock. `stamped` is the
      record the stamp was stored for. */
  datatype PowerCall =
    | PowerIdle
    | PowerLocked
    | PowerStamp(rx: int, stamped: Record)
    | PowerClock(rx: int, stamped: Record, now: int)
    | PowerDone(result: bool, rx: int, stamped: Record, now: int, read: Record)

  /** A call of is_connected: load the flag, load the stamp, read the clock. `session` is the one whose flag
      was loaded; `both` records that since then there was a moment with the flag set and a stamp; `flag` is
      the flag. */
  datatype ConnectedCall =
    | ConnIdle
    | ConnFlag(session: nat, both: bool)
    | ConnStamp(session: nat, both: bool, rx: int, stamped: Record)
    | ConnDone(result: bool, flag: bool, session: nat, both: bool, rx: int, stamped: Record, now: int)

  datatype State = State(connected: bool, lastRx: int, stamped: Record, cached: Record,
                         clock: nat, session: nat, complete: nat,
                         reader: Reader, power: PowerCall, conn: ConnectedCall)

  const NO_RECORD := Record(0, 0, false)
  const START := State(false, -1, NO_RECORD, NO_RECORD, 0, 0, 0, Disconnected, PowerIdle, ConnIdle)

  const STALE_US := 3_000_000

  /** is_data_current. */
  predicate Current(rx: int, now: int) {
    rx >= 0 && now >= 0 && (now < rx || now - rx <= STALE_US)
  }

  datatype Action =
    | Tick(d: nat)
    | ConnectSucceeds | StoreConnected
    | CompleteRecord(powerOn: bool) | BeginWrite | EndWrite | ReadClock(fails: bool) | StoreStamp
    | CloseSocket | ClearConnected | ClearStamp
    | PowerLock | PowerLoadStamp | PowerReadClock(fails: bool) | PowerReturn
    | ConnLoadFlag | ConnLoadStamp | ConnReadClock(fails: bool)

  predicate SharedLocked(s: State) { s.power.PowerLocked? || s.power.PowerStamp? || s.power.PowerClock? }

  predicate Enabled(s: State, a: Action) {
    match a
    case Tick(_) => true
    case ConnectSucceeds => s.reader.Disconnected?
    case StoreConnected => s.reader.Opened?
    case CompleteRecord(_) => s.reader.Reading?
    case BeginWrite => s.reader.Complete? && !SharedLocked(s)
    case EndWrite => s.reader.Writing?
    case ReadClock(_) => s.reader.Written?
    case StoreStamp => s.reader.Stamping?
    case CloseSocket => s.reader.Reading?
    case ClearConnected => s.reader.Closing?
    case ClearStamp => s.reader.Cleared?
    case PowerLock => (s.power.PowerIdle? || s.power.PowerDone?) && !s.reader.Writing?
    case PowerLoadStamp => s.power.PowerLocked?
    case PowerReadClock(_) => s.power.PowerStamp?
    case PowerReturn => s.power.PowerClock?
    case ConnLoadFlag => s.conn.ConnIdle? || s.conn.ConnDone?
    case ConnLoadStamp => s.conn.ConnFlag?
    case ConnReadClock(_) => s.conn.ConnStamp?
  }

  function Clock(s: State, fails: bool): int { if fails then -1 else s.clock }

  function Apply(s: State, a: Action): State
    requires Enabled(s, a)
  {
    match a
    case Tick(d) => s.(clock := s.clock + d)
    case ConnectSucceeds => s.(reader := Opened, session := s.session + 1)
    case StoreConnected => s.(reader := Reading, connected := true)
    case CompleteRecord(p) =>
      s.(reader := Complete(Record(s.complete + 1, s.session, p)), complete := s.complete + 1)
    case BeginWrite => s.(reader := Writing(s.reader.r))
    case EndWrite => s.(reader := Written(s.reader.r), cached := s.reader.r)
    case ReadClock(fails) => s.(reader := Stamping(s.reader.r, Clock(s, fails)))
    case StoreStamp => s.(reader := Reading, lastRx := s.reader.now, stamped := s.reader.r)
    case CloseSocket => s.(reader := Closing)
    case ClearConnected => s.(reader := Cleared, connected := false)
    case ClearStamp => s.(reader := Disconnected, lastRx := -1)
    case PowerLock => s.(power := PowerLocked)
    case PowerLoadStamp => s.(power := PowerStamp(s.lastRx, s.stamped))
    case PowerReadClock(fails) => s.(power := PowerClock(s.power.rx, s.power.stamped, Clock(s, fails)))
    case PowerReturn =>
      s.(power := PowerDone(Current(s.power.rx, s.power.now) && s.cached.powerOn,
                            s.power.rx, s.power.stamped, s.power.now, s.cached))
    case ConnLoadFlag =>
      s.(conn := if s.connected then ConnFlag(s.session, s.lastRx >= 0)
                 else ConnDone(false, false, s.session, false, -1, NO_RECORD, -1))
    case ConnLoadStamp => s.(conn := ConnStamp(s.conn.session, s.conn.both, s.lastRx, s.stamped))
    case ConnReadClock(fails) =>
      var now := Clock(s, fails);
      s.(conn := ConnDone(Current(s.conn.rx, now), true, s.conn.session, s.conn.both, s.conn.rx, s.conn.stamped, now))
  }

  /** The moment after a step, noted for a call of is_connected that is under way. */
  function Observed(s: State): State {
    if s.conn.ConnFlag? && s.connected && s.lastRx >= 0 then s.(conn := ConnFlag(s.conn.session, true)) else s
  }

  function Step(s: State, a: Action): State
    requires Enabled(s, a)
  {
    Observed(Apply(s, a))
  }

  predicate Possible(s: State, actions: seq<Action>)
    decreases actions
  {
    actions == [] || (Enabled(s, actions[0]) && Possible(Step(s, actions[0]), actions[1..]))
  }

  function Run(s: State, actions: seq<Action>): State
    requires Possible(s, actions)
    decreases actions
  {
    if actions == [] then s else Run(Step(s, actions[0]), actions[1..])
  }

  // ---- the invariant -----------------------------------------------------------------------------------

  predicate ReaderInv(s: State) {
    && s.connected == (s.reader.Reading? || s.reader.Complete? || s.reader.Writing? || s.reader.Written?
                       || s.reader.Stamping? || s.reader.Closing?)
    && (s.reader.Complete? || s.reader.Writing? ==>
          s.reader.r.id == s.complete > s.cached.id && s.reader.r.session == s.session)
    && (s.reader.Written? || s.reader.Stamping? ==> s.reader.r == s.cached && s.cached.session == s.session
                                                     && s.cached.id > 0)
    && (s.reader.Stamping? ==> s.reader.now <= s.clock)
    && s.cached.id <= s.complete
    && (s.reader.Disconnected? || s.reader.Opened? ==> s.lastRx < 0)
    && s.stamped.id <= s.cached.id && s.stamped.session <= s.session
    && (s.lastRx >= 0 ==>
          && s.stamped.session == s.session == s.cached.session && 0 < s.stamped.id && s.lastRx <= s.clock)
  }

  predicate PowerInv(s: State) {
    && (SharedLocked(s) ==> !s.reader.Writing?)
    && (s.power.PowerStamp? || s.power.PowerClock? || s.power.PowerDone? ==>
          && s.power.stamped.id <= s.cached.id && s.power.rx <= s.clock
          && (s.power.rx >= 0 ==> 0 < s.power.stamped.id))
    && (s.power.PowerClock? || s.power.PowerDone? ==> s.power.now < 0 || s.power.rx <= s.power.now <= s.clock)
    && (s.power.PowerDone? ==>
          && s.power.stamped.id <= s.power.read.id <= s.cached.id
          && s.power.result == (s.power.rx >= 0 && s.power.now >= 0 && s.power.now - s.power.rx <= 3_000_000
                                && s.power.read.powerOn))
  }

  predicate ConnInv(s: State) {
    && (s.conn.ConnFlag? ==> s.conn.session <= s.session && (s.lastRx >= 0 ==> s.conn.both))
    && (s.conn.ConnStamp? || s.conn.ConnDone? ==>
          && s.conn.rx <= s.clock
          && (s.conn.rx >= 0 ==> s.conn.both && s.conn.session <= s.conn.stamped.session
                                 && 0 < s.conn.stamped.id <= s.cached.id))
    && (s.conn.ConnDone? ==>
          && (s.conn.now < 0 || s.conn.rx <= s.conn.now)
          && s.conn.result == (s.conn.flag && s.conn.rx >= 0 && s.conn.now >= 0
                               && s.conn.now - s.conn.rx <= 3_000_000))
  }

  predicate Inv(s: State) { ReaderInv(s) && PowerInv(s) && ConnInv(s) }

  lemma ReaderStep(s: State, a: Action)
    requires ReaderInv(s) && Enabled(s, a)
    ensures ReaderInv(Step(s, a))
  {
    hide Current;
  }

  /** What is_power_on has read stays true of the state, whatever the others do meanwhile. */
  lemma PowerHolds(s: State, a: Action)
    requires ReaderInv(s) && PowerInv(s) && Enabled(s, a) && !IsPower(a)
    ensures PowerInv(Step(s, a))
  {
    hide Current;
  }

  lemma PowerMoves(s: State, a: Action)
    requires ReaderInv(s) && PowerInv(s) && Enabled(s, a) && IsPower(a)
    ensures PowerInv(Step(s, a))
  {}

  predicate IsPower(a: Action) { a.PowerLock? || a.PowerLoadStamp? || a.PowerReadClock? || a.PowerReturn? }

  predicate IsConn(a: Action) { a.ConnLoadFlag? || a.ConnLoadStamp? || a.ConnReadClock? }

  lemma ConnHolds(s: State, a: Action)
    requires ReaderInv(s) && ConnInv(s) && Enabled(s, a) && !IsConn(a)
    ensures ConnInv(Step(s, a))
  {
    hide Current;
  }

  lemma ConnMoves(s: State, a: Action)
    requires ReaderInv(s) && ConnInv(s) && Enabled(s, a) && IsConn(a)
    ensures ConnInv(Step(s, a))
  {}

  lemma StepInv(s: State, a: Action)
    requires Inv(s) && Enabled(s, a)
    ensures Inv(Step(s, a))
  {
    hide ReaderInv, PowerInv, ConnInv, Step, Enabled;
    ReaderStep(s, a);
    if IsPower(a) { PowerMoves(s, a); } else { PowerHolds(s, a); }
    if IsConn(a) { ConnMoves(s, a); } else { ConnHolds(s, a); }
  }

  lemma {:induction false} RunInv(s: State, actions: seq<Action>)
    requires Inv(s) && Possible(s, actions)
    ensures Inv(Run(s, actions))
    decreases actions
  {
    hide Inv, Step, Enabled;
    if actions != [] {
      StepInv(s, actions[0]);
      RunInv(Step(s, actions[0]), actions[1..]);
    }
  }

  // ---- what the callers can rely on --------------------------------------------------------------------

  /** In every reachable state the flag and a stamp together mean that a complete record was published in the
      present session, and that the cache holds one of this session, the stamped one or a newer. */
  lemma ConnectedAndStampedIsFresh(actions: seq<Action>)
    requires Possible(START, actions)
    ensures var s := Run(START, actions);
      s.connected && s.lastRx >= 0 ==>
        && s.stamped.session == s.session && 0 < s.stamped.id <= s.cached.id
        && s.cached.session == s.session
        && s.lastRx <= s.clock
  {
    hide Step, Enabled;
    RunInv(START, actions);
  }

  /** is_power_on returns true exactly when there is a stamp, the clock works, the stamp is at most 3000 ms old
      and the record it read says so; and then that record is the one the stamp was stored for or a newer
      one. */
  lemma PowerOnIsCurrent(actions: seq<Action>)
    requires Possible(START, actions)
    ensures var s := Run(START, actions);
      s.power.PowerDone? ==>
        && (s.power.result <==>
              s.power.rx >= 0 && s.power.now >= 0 && s.power.now - s.power.rx <= 3_000_000 && s.power.read.powerOn)
        && (s.power.result ==> 0 < s.power.stamped.id <= s.power.read.id && s.power.rx <= s.power.now)
  {
    hide Step, Enabled;
    RunInv(START, actions);
  }

  /** is_connected returns true exactly when the flag was set when it was loaded, there is a stamp, the clock
      works and the stamp is at most 3000 ms old; and then there was a moment during the call with the flag
      set and a stamp, and the stamp is of the session whose flag was read or a later one. */
  lemma ConnectedIsCurrent(actions: seq<Action>)
    requires Possible(START, actions)
    ensures var s := Run(START, actions);
      s.conn.ConnDone? ==>
        && (s.conn.result <==>
              s.conn.flag && s.conn.rx >= 0 && s.conn.now >= 0 && s.conn.now - s.conn.rx <= 3_000_000)
        && (s.conn.result ==>
              && s.conn.both && s.conn.session <= s.conn.stamped.session
              && 0 < s.conn.stamped.id && s.conn.rx <= s.conn.now)
  {
    hide Step, Enabled;
    RunInv(START, actions);
  }

  /** The cache is never read while it is being written. */
  lemma ReadsAreWhole(actions: seq<Action>)
    requires Possible(START, actions)
    ensures var s := Run(START, actions);
      Enabled(s, PowerReturn) ==> !s.reader.Writing?
  {
    hide Step;
    RunInv(START, actions);
  }
}
