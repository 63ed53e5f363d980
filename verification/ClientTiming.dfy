/** Why a truncated write of the daemon never becomes part of a record of the SCUD485 client: time.

    A stream socket does not mark where a record starts. When the daemon writes only a part of a record,
    the client gets rid of it because its poll times out before the daemon writes again. A signal that
    interrupts the poll starts it anew, with its whole timeout, and so puts that off. */
module ClientTiming {
  import ClientReader

  const SIZE := ClientReader.SIZE

  /** Milliseconds between two writes of the daemon, and the timeout of the client's poll. */
  const PERIOD := 1000
  const POLL := 500

  /** Byte `offset` of write number `write`. */
  datatype Tag = Tag(write: nat, offset: nat)

  /** The first n bytes of a write. */
  function Written(write: nat, n: nat): (s: seq<Tag>)
    ensures |s| == n && forall i | 0 <= i < n :: s[i] == Tag(write, i)
  {
    if n == 0 then [] else Written(write, n - 1) + [Tag(write, n - 1)]
  }

  /** `sent` bytes are on the way or in the socket, `got` are in `wire`; `lastRead` is when the client last
      read, `polling` when its present poll began; `writes` counts the daemon's writes, `lastWrite` is the
      time of the last. */
  datatype State = State(now: nat, open: bool, sent: seq<Tag>, got: seq<Tag>, lastRead: nat, polling: nat,
                         writes: nat, lastWrite: nat, published: seq<seq<Tag>>)

  const START := State(PERIOD, false, [], [], 0, 0, 0, 0, [])

  datatype Action =
    | Tick(d: nat)
    | Connect
    | Write(n: nat)     // n bytes of a record reach the client's socket: all, some or none
    | Read(n: nat)
    | PollTimesOut
    | Interrupted       // by a signal, poll or read
    | Fails             // an error, or the end of the stream

  /** The bounds on the delays: bytes written are delivered and read, and the next poll is begun, within
      `delivery` ms; with a part of a record read, signals interrupt the client no later than `interruption`
      ms after that read; a poll that times out is acted on within `scheduling` ms. */
  datatype Delays = Delays(delivery: nat, interruption: nat, scheduling: nat)

  predicate InTime(s: State, now: nat, d: Delays) {
    && (s.sent != [] ==> now <= s.lastWrite + d.delivery)
    && (s.sent == [] && s.got != [] ==> now <= s.polling + POLL + d.scheduling)
  }

  /** Time passes within the bounds. */
  predicate Enabled(s: State, a: Action, bounds: Delays) {
    match a
    case Tick(d) => InTime(s, s.now + d, bounds)
    case Connect => !s.open
    case Write(n) => s.lastWrite + PERIOD <= s.now && n <= SIZE
    case Read(n) => s.open && 0 < n <= |s.sent| && |s.got| + n <= SIZE
    case PollTimesOut => s.open && s.polling + POLL <= s.now
    case Interrupted => s.open && (s.got != [] ==> s.now <= s.lastRead + bounds.interruption)
    case Fails => s.open
  }

  function Step(s: State, a: Action): State
    requires a.Read? ==> a.n <= |s.sent|
  {
    match a
    case Tick(d) => s.(now := s.now + d)
    case Connect => s.(open := true, polling := s.now)
    case Write(n) =>
      s.(sent := if s.open then s.sent + Written(s.writes, n) else s.sent,
         writes := s.writes + 1, lastWrite := s.now)
    case Read(n) =>
      var got := s.got + s.sent[..n];
      var s' := s.(sent := s.sent[n..], lastRead := s.now, polling := s.now);
      if |got| == SIZE then s'.(got := [], published := s.published + [got]) else s'.(got := got)
    case PollTimesOut =>
      if s.got == [] then s.(polling := s.now) else s.(open := false, sent := [], got := [])
    case Interrupted => s.(polling := s.now)
    case Fails => s.(open := false, sent := [], got := [])
  }

  predicate Possible(s: State, actions: seq<Action>, bounds: Delays)
    decreases actions
  {
    actions == []
    || (Enabled(s, actions[0], bounds) && Possible(Step(s, actions[0]), actions[1..], bounds))
  }

  function Run(s: State, actions: seq<Action>, bounds: Delays): State
    requires Possible(s, actions, bounds)
    decreases actions
  {
    if actions == [] then s else Run(Step(s, actions[0]), actions[1..], bounds)
  }

  predicate IsWhole(record: seq<Tag>) { |record| == SIZE && record == Written(record[0].write, SIZE) }

  /** Each published record is one of the writes, in full. */
  predicate AllWhole(s: State) {
    forall i | 0 <= i < |s.published| :: IsWhole(s.published[i]) && s.published[i][0].write < s.writes
  }

  /** Whatever has not been published or dropped yet is the beginning of the last write. */
  predicate OneWrite(s: State) {
    var rest := s.got + s.sent;
    rest == [] || (s.writes > 0 && |rest| <= SIZE && rest == Written(s.writes - 1, |rest|))
  }

  predicate Inv(s: State, d: Delays) {
    && OneWrite(s) && InTime(s, s.now, d)
    && (!s.open ==> s.sent == [] && s.got == [])
    && s.lastWrite <= s.now
    && (s.got != [] ==>
          s.polling <= s.lastRead + d.interruption && s.lastRead <= s.lastWrite + d.delivery && |s.got| < SIZE)
    && AllWhole(s)
  }

  /** The delays together are shorter than what is left of the period after a poll. */
  predicate Short(d: Delays) { d.delivery + d.interruption + d.scheduling < PERIOD - POLL }

  /** By the time the daemon writes again, the client has published or dropped all it was sent before. */
  lemma NothingLeftAtWrite(s: State, d: Delays)
    requires Inv(s, d) && Short(d) && s.lastWrite + PERIOD <= s.now
    ensures s.sent == [] && s.got == []
  {}

  lemma WriteInv(s: State, n: nat, d: Delays)
    requires Inv(s, d) && Short(d) && Enabled(s, Write(n), d)
    ensures Inv(Step(s, Write(n)), d)
  {
    hide IsWhole, Written;
    NothingLeftAtWrite(s, d);
    assert s.got + Written(s.writes, n) == Written(s.writes, n);
    assert s.sent + Written(s.writes, n) == Written(s.writes, n);
  }

  lemma ReadInv(s: State, n: nat, d: Delays)
    requires Inv(s, d) && Enabled(s, Read(n), d)
    ensures Inv(Step(s, Read(n)), d)
  {
    hide IsWhole, Written;
    assert s.got + s.sent == (s.got + s.sent[..n]) + s.sent[n..];
    if |s.got| + n == SIZE {
      assert s.sent[n..] == [];
      assert s.got + s.sent[..n] == s.got + s.sent;
      FullIsWhole(s.got + s.sent[..n], s.writes - 1);
    }
  }

  lemma FullIsWhole(record: seq<Tag>, write: nat)
    requires record == Written(write, SIZE)
    ensures IsWhole(record) && record[0].write == write
  {}

  lemma StepInv(s: State, a: Action, d: Delays)
    requires Inv(s, d) && Short(d) && Enabled(s, a, d)
    ensures Inv(Step(s, a), d)
  {
    match a {
      case Tick(_) => hide IsWhole, Written;
      case Connect => hide IsWhole, Written;
      case Write(n) => hide *; WriteInv(s, n, d);
      case Read(n) => hide *; ReadInv(s, n, d);
      case PollTimesOut => hide IsWhole, Written;
      case Interrupted => hide IsWhole, Written;
      case Fails => hide IsWhole, Written;
    }
  }

  lemma {:induction false} RunInv(s: State, actions: seq<Action>, d: Delays)
    requires Inv(s, d) && Short(d)
    requires Possible(s, actions, d)
    ensures Inv(Run(s, actions, d), d)
    decreases actions
  {
    hide Inv, Step;
    if actions != [] {
      StepInv(s, actions[0], d);
      RunInv(Step(s, actions[0]), actions[1..], d);
    }
  }

  /** If the daemon writes at most every 1000 ms, and delivery, interruptions and scheduling together delay by
      less than 500 ms, then in every run each record the client publishes is one that the daemon wrote whole, however
      many of its writes were cut short. */
  lemma NoSplicing(actions: seq<Action>, d: Delays)
    requires Short(d) && Possible(START, actions, d)
    ensures AllWhole(Run(START, actions, d))
  {
    hide Step, IsWhole;
    RunInv(START, actions, d);
  }

  /** No record is ever spliced. */
  ghost predicate NeverSplices(d: Delays) {
    forall actions | Possible(START, actions, d) :: AllWhole(Run(START, actions, d))
  }

  /** And this is exactly the bound that is needed. */
  lemma NoSplicingIff(d: Delays)
    ensures NeverSplices(d) <==> d.delivery + d.interruption + d.scheduling < 500
  {
    hide Possible, Run, AllWhole;
    if Short(d) {
      forall actions | Possible(START, actions, d) ensures AllWhole(Run(START, actions, d)) {
        NoSplicing(actions, d);
      }
    } else {
      var actions := Splices(d);
    }
  }

  /** Bounds on delivery and scheduling alone do not save a record: a signal in time for one more poll after
      every read is enough to lose it, even if nothing else takes any time. */
  lemma InterruptedPollSplices(delivery: nat, scheduling: nat)
    ensures !NeverSplices(Delays(delivery, POLL, scheduling))
  {
    hide NeverSplices;
    NoSplicingIff(Delays(delivery, POLL, scheduling));
  }

  // ---- when the delays are longer ------------------------------------------------------------------------

  /** The states of a run. */
  predicate Passes(states: seq<State>, actions: seq<Action>, d: Delays) {
    && |states| == |actions| + 1
    && forall k | 0 <= k < |actions| ::
         Enabled(states[k], actions[k], d) && states[k + 1] == Step(states[k], actions[k])
  }

  lemma {:induction false} PassesIsRun(states: seq<State>, actions: seq<Action>, d: Delays)
    requires Passes(states, actions, d)
    ensures Possible(states[0], actions, d) && Run(states[0], actions, d) == states[|actions|]
    decreases |actions|
  {
    hide Step, Enabled;
    if actions != [] { PassesIsRun(states[1..], actions[1..], d); }
  }

  /** One byte is written; it is read as late as it can be; the poll that follows is interrupted as late as it
      can be; the client is kept from acting on the next poll until the daemon writes again, and what it then
      reads completes a record of both writes. */
  function Deed(late: nat, signal: nat, k: nat): Action
    requires late + signal <= PERIOD && k < 9
  {
    if k == 0 then Connect
    else if k == 1 then Write(1)
    else if k == 2 then Tick(late)
    else if k == 3 then Read(1)
    else if k == 4 then Tick(signal)
    else if k == 5 then Interrupted
    else if k == 6 then Tick(PERIOD - late - signal)
    else if k == 7 then Write(SIZE)
    else Read(SIZE - 1)
  }

  function Spliced(): seq<Tag> { Written(0, 1) + Written(1, SIZE)[..SIZE - 1] }

  function Moment(late: nat, signal: nat, k: nat): State
    requires late + signal <= PERIOD && k < 10
  {
    var one, all, read := Written(0, 1), Written(1, SIZE), PERIOD + late;
    if k == 0 then START
    else if k == 1 then START.(open := true, polling := PERIOD)
    else if k == 2 then State(PERIOD, true, one, [], 0, PERIOD, 1, PERIOD, [])
    else if k == 3 then State(read, true, one, [], 0, PERIOD, 1, PERIOD, [])
    else if k == 4 then State(read, true, [], one, read, read, 1, PERIOD, [])
    else if k == 5 then State(read + signal, true, [], one, read, read, 1, PERIOD, [])
    else if k == 6 then State(read + signal, true, [], one, read, read + signal, 1, PERIOD, [])
    else if k == 7 then State(2 * PERIOD, true, [], one, read, read + signal, 1, PERIOD, [])
    else if k == 8 then State(2 * PERIOD, true, all, one, read, read + signal, 2, 2 * PERIOD, [])
    else State(2 * PERIOD, true, all[SIZE - 1..], [], 2 * PERIOD, 2 * PERIOD, 2, 2 * PERIOD, [Spliced()])
  }

  lemma Passing(late: nat, signal: nat, k: nat, d: Delays)
    requires late + signal <= PERIOD && k < 9
    requires late <= d.delivery && signal <= d.interruption && signal <= POLL
    requires PERIOD <= late + signal + POLL + d.scheduling
    ensures Enabled(Moment(late, signal, k), Deed(late, signal, k), d)
    ensures Moment(late, signal, k + 1) == Step(Moment(late, signal, k), Deed(late, signal, k))
  {
    hide Written;
    if k == 1 {
      assert [] + Written(0, 1) == Written(0, 1);
    } else if k == 3 {
      assert Written(0, 1)[..1] == Written(0, 1) && Written(0, 1)[1..] == [];
      assert [] + Written(0, 1) == Written(0, 1);
    } else if k == 7 {
      assert [] + Written(1, SIZE) == Written(1, SIZE);
    }
  }

  function Min(a: nat, b: nat): nat { if a < b then a else b }

  lemma Splices(d: Delays) returns (actions: seq<Action>)
    requires !Short(d)
    ensures Possible(START, actions, d) && !AllWhole(Run(START, actions, d))
  {
    hide Possible, Run, IsWhole, AllWhole, Step, Deed, Moment;
    var late := Min(d.delivery, PERIOD);
    var signal := Min(d.interruption, Min(POLL, PERIOD - late));
    actions := seq(9, k requires 0 <= k < 9 => Deed(late, signal, k));
    var states := seq(10, k requires 0 <= k < 10 => Moment(late, signal, k));
    forall k | 0 <= k < 9
      ensures Enabled(states[k], actions[k], d) && states[k + 1] == Step(states[k], actions[k])
    {
      Passing(late, signal, k, d);
    }
    PassesIsRun(states, actions, d);
    LastMoment(late, signal);
  }

  lemma LastMoment(late: nat, signal: nat)
    requires late + signal <= PERIOD
    ensures Moment(late, signal, 0) == START && !AllWhole(Moment(late, signal, 9))
  {
    hide IsWhole, AllWhole, Written;
    SpliceIsNotWhole(Spliced());
    NotAllWhole(Moment(late, signal, 9));
  }

  lemma NotAllWhole(s: State)
    requires |s.published| == 1 && !IsWhole(s.published[0])
    ensures !AllWhole(s)
  {
    hide IsWhole;
  }

  lemma SpliceIsNotWhole(record: seq<Tag>)
    requires |record| == SIZE && record[0] == Tag(0, 0) && record[1] == Tag(1, 0)
    ensures !IsWhole(record)
  {
    assert Written(0, SIZE)[1] == Tag(0, 1);
  }
}
