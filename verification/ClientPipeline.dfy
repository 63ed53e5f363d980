/** From the daemon's records to the client's cache: the steps of `ClientTiming` as events of `ClientReader`. */
module ClientPipeline {
  import opened Bytes
  import Reader = ClientReader
  import opened ClientTiming
  import Daemon
  import Battery

  /** The records the daemon writes, one after the other, as they lie in memory. */
  type Records = seq<seq<byte>>

  predicate WholeRecords(records: Records) { forall w | 0 <= w < |records| :: |records[w]| == SIZE }

  function ByteAt(records: Records, t: Tag): byte {
    if t.write < |records| && t.offset < |records[t.write]| then records[t.write][t.offset] else 0
  }

  function BytesAt(records: Records, tags: seq<Tag>): (s: seq<byte>)
    ensures |s| == |tags| && forall i | 0 <= i < |tags| :: s[i] == ByteAt(records, tags[i])
  {
    if tags == [] then [] else BytesAt(records, tags[..|tags| - 1]) + [ByteAt(records, tags[|tags| - 1])]
  }

  function RecordsAt(records: Records, published: seq<seq<Tag>>): (s: seq<seq<byte>>)
    ensures |s| == |published| && forall i | 0 <= i < |published| :: s[i] == BytesAt(records, published[i])
  {
    if published == [] then []
    else RecordsAt(records, published[..|published| - 1]) + [BytesAt(records, published[|published| - 1])]
  }

  /** What a step is to the reader thread. */
  function EventsOf(records: Records, s: State, a: Action): seq<Reader.Event>
    requires a.Read? ==> a.n <= |s.sent|
  {
    match a
    case Tick(_) => []
    case Connect => [Reader.Connects]
    case Write(_) => []
    case Read(n) => [Reader.Arrives(BytesAt(records, s.sent[..n]), s.now)]
    case PollTimesOut => [Reader.Silence]
    case Interrupted => [Reader.Interrupted]
    case Fails => [Reader.HangUp]
  }

  function EventsAlong(records: Records, s: State, actions: seq<Action>, bounds: Delays): seq<Reader.Event>
    requires Possible(s, actions, bounds)
    decreases actions
  {
    if actions == [] then []
    else EventsOf(records, s, actions[0]) + EventsAlong(records, Step(s, actions[0]), actions[1..], bounds)
  }

  /** The reader is where the timed client is: the same socket, the same part of a record in `wire`, the same
      records published. */
  predicate Matches(records: Records, c: Reader.Client, s: State) {
    && c.open == s.open && (!s.open ==> s.sent == [] && s.got == [])
    && |s.got| == |c.session| % SIZE
    && BytesAt(records, s.got) == c.session[|c.session| - |s.got|..]
    && c.published == RecordsAt(records, s.published)
  }

  lemma BytesAtConcat(records: Records, a: seq<Tag>, b: seq<Tag>)
    ensures BytesAt(records, a + b) == BytesAt(records, a) + BytesAt(records, b)
  {}

  lemma RecordsAtSnoc(records: Records, published: seq<seq<Tag>>, r: seq<Tag>)
    ensures RecordsAt(records, published + [r]) == RecordsAt(records, published) + [BytesAt(records, r)]
  {}

  lemma TailGrows(session: seq<byte>, got: nat, bytes: seq<byte>)
    requires got <= |session|
    ensures var s := session + bytes;
      s[|s| - (got + |bytes|)..] == session[|session| - got..] + bytes
  {}

  lemma NothingGot(records: Records)
    ensures BytesAt(records, []) == []
  {}

  lemma StepReceives(c: Reader.Client, bytes: seq<byte>, now: int)
    requires c.open && bytes != []
    ensures Reader.Step(c, Reader.Arrives(bytes, now)) == Reader.Received(c, bytes, now)
  {}

  lemma PartMatches(records: Records, c: Reader.Client, s: State, n: nat, c': Reader.Client)
    requires Matches(records, c, s) && s.open && 0 < n <= |s.sent| && |s.got| + n < SIZE
    requires var bytes := BytesAt(records, s.sent[..n]);
      && c' == c.(session := c.session + bytes) && |c'.session| % SIZE == |s.got| + n
    ensures Matches(records, c', Step(s, Read(n)))
  {
    hide BytesAt, RecordsAt;
    BytesAtConcat(records, s.got, s.sent[..n]);
    TailGrows(c.session, |s.got|, BytesAt(records, s.sent[..n]));
  }

  lemma FullMatches(records: Records, c: Reader.Client, s: State, n: nat, c': Reader.Client)
    requires Matches(records, c, s) && s.open && 0 < n <= |s.sent| && |s.got| + n == SIZE
    requires var session := c.session + BytesAt(records, s.sent[..n]);
      && SIZE <= |session| && |session| % SIZE == 0 && c'.open && c'.session == session
      && c'.published == c.published + [session[|session| - SIZE..]]
    ensures Matches(records, c', Step(s, Read(n)))
  {
    hide BytesAt, RecordsAt;
    BytesAtConcat(records, s.got, s.sent[..n]);
    TailGrows(c.session, |s.got|, BytesAt(records, s.sent[..n]));
    RecordsAtSnoc(records, s.published, s.got + s.sent[..n]);
    NothingGot(records);
  }

  lemma ReadMatches(records: Records, c: Reader.Client, s: State, n: nat, bounds: Delays)
    requires Matches(records, c, s) && Enabled(s, Read(n), bounds)
    ensures Matches(records, Reader.Step(c, Reader.Arrives(BytesAt(records, s.sent[..n]), s.now)), Step(s, Read(n)))
  {
    hide BytesAt, RecordsAt, Reader.Received, Reader.Step, Step;
    var bytes := BytesAt(records, s.sent[..n]);
    StepReceives(c, bytes, s.now);
    Reader.ReceivedWithinRecord(c, bytes, s.now);
    if |s.got| + n < SIZE {
      PartMatches(records, c, s, n, Reader.Received(c, bytes, s.now));
    } else {
      FullMatches(records, c, s, n, Reader.Received(c, bytes, s.now));
    }
  }

  lemma StepMatches(records: Records, c: Reader.Client, s: State, a: Action, bounds: Delays)
    requires Matches(records, c, s) && Enabled(s, a, bounds)
    ensures Matches(records, Reader.Run(c, EventsOf(records, s, a)), Step(s, a))
  {
    hide BytesAt, RecordsAt, Reader.Received;
    match a {
      case Tick(_) =>
      case Connect => OneEvent(c, Reader.Connects);
      case Write(_) =>
      case Read(n) =>
        OneEvent(c, Reader.Arrives(BytesAt(records, s.sent[..n]), s.now));
        ReadMatches(records, c, s, n, bounds);
      case PollTimesOut => OneEvent(c, Reader.Silence);
      case Interrupted => OneEvent(c, Reader.Interrupted);
      case Fails => OneEvent(c, Reader.HangUp);
    }
  }

  lemma OneEvent(c: Reader.Client, e: Reader.Event)
    ensures Reader.Run(c, [e]) == Reader.Step(c, e)
  {}

  lemma {:induction false} RunConcat(c: Reader.Client, a: seq<Reader.Event>, b: seq<Reader.Event>)
    ensures Reader.Run(c, a + b) == Reader.Run(Reader.Run(c, a), b)
    decreases a
  {
    hide Reader.Step;
    if a == [] {
      assert a + b == b;
    } else {
      assert (a + b)[1..] == a[1..] + b;
      RunConcat(Reader.Step(c, a[0]), a[1..], b);
    }
  }

  /** Every run of the timed client is a run of the reader thread, record for record. */
  lemma {:induction false} RunMatches(records: Records, c: Reader.Client, s: State, actions: seq<Action>,
                                      bounds: Delays)
    requires Matches(records, c, s) && Possible(s, actions, bounds)
    ensures Matches(records, Reader.Run(c, EventsAlong(records, s, actions, bounds)), Run(s, actions, bounds))
    decreases actions
  {
    hide Matches, EventsOf, Step, Reader.Run;
    if actions == [] {
      NoEvents(c);
    } else {
      var now, later := EventsOf(records, s, actions[0]),
        EventsAlong(records, Step(s, actions[0]), actions[1..], bounds);
      StepMatches(records, c, s, actions[0], bounds);
      RunMatches(records, Reader.Run(c, now), Step(s, actions[0]), actions[1..], bounds);
      RunConcat(c, now, later);
    }
  }

  lemma NoEvents(c: Reader.Client)
    ensures Reader.Run(c, []) == c
  {}

  lemma StartMatches(records: Records)
    ensures Matches(records, Reader.START, START)
  {
    hide Zeroes;
  }

  lemma WholeWrite(records: Records, record: seq<Tag>)
    requires WholeRecords(records) && IsWhole(record) && record[0].write < |records|
    ensures BytesAt(records, record) == records[record[0].write]
  {}

  /** The bytes are zeros, or one of the records as the daemon wrote it. */
  predicate ZerosOrRecord(cached: seq<byte>, records: Records) { cached == Zeroes(SIZE) || cached in records }

  /** Within the bounds on the delays, what the reader thread has in its cache, and all it ever published, are
      records that the daemon wrote, whole, although the stream does not say where they begin. */
  lemma CacheIsWritten(records: Records, actions: seq<Action>, d: Delays)
    requires WholeRecords(records) && Short(d) && Possible(START, actions, d)
    requires Run(START, actions, d).writes <= |records|
    ensures var c := Reader.Run(Reader.START, EventsAlong(records, START, actions, d));
      && (forall r | r in c.published :: r in records)
      && ZerosOrRecord(c.cached, records)
  {
    hide BytesAt, EventsAlong, Possible, Short, IsWhole, Run, Reader.Run, WholeRecords, Matches, Reader.Sound;
    var c, s := Reader.Run(Reader.START, EventsAlong(records, START, actions, d)), Run(START, actions, d);
    StartMatches(records);
    RunMatches(records, Reader.START, START, actions, d);
    Reader.RunIsSound(EventsAlong(records, START, actions, d));
    NoSplicing(actions, d);
    WholeAreWritten(records, c, s);
    CacheIsLast(c);
  }

  lemma WholeAreWritten(records: Records, c: Reader.Client, s: State)
    requires WholeRecords(records) && Matches(records, c, s) && AllWhole(s) && s.writes <= |records|
    ensures forall r | r in c.published :: r in records
  {
    hide BytesAt, RecordsAt, IsWhole, WholeRecords;
    assert |c.published| == |s.published|;
    forall i | 0 <= i < |c.published| ensures c.published[i] in records {
      IsNotEmpty(s.published[i]);
      var w := s.published[i][0].write;
      WholeWrite(records, s.published[i]);
      assert c.published[i] == BytesAt(records, s.published[i]) == records[w];
    }
  }

  lemma IsNotEmpty(record: seq<Tag>)
    ensures IsWhole(record) ==> record != []
  {}

  lemma CacheIsLast(c: Reader.Client)
    requires Reader.Sound(c)
    ensures c.cached == Zeroes(SIZE) || c.cached in c.published
  {
    hide Reader.Records, Reader.PastRecords;
  }

  /** The records a client is sent, in the layout it reads. */
  function Laid(layout: Battery.BatteryStatus -> seq<byte>, records: seq<Battery.BatteryStatus>): (r: Records)
    ensures |r| == |records| && forall i | 0 <= i < |r| :: r[i] == layout(records[i])
  {
    if records == [] then [] else Laid(layout, records[..|records| - 1]) + [layout(records[|records| - 1])]
  }

  /** The pipeline from end to end: the daemon plays the rounds h, its writes are the records it publishes in
      them, in any layout of the right size, and any of them may be cut short. What the client then has in its
      cache is all zeros or the whole record of a round whose read succeeded. */
  lemma CacheIsPublished(h: seq<Daemon.Round>, snapshots: bool, layout: Battery.BatteryStatus -> seq<byte>,
                         actions: seq<Action>, d: Delays)
    requires forall record :: |layout(record)| == SIZE
    requires Short(d) && Possible(START, actions, d)
    requires Run(START, actions, d).writes <= |Daemon.Published(h, snapshots)|
    ensures var records := Laid(layout, Daemon.Published(h, snapshots));
      var c := Reader.Run(Reader.START, EventsAlong(records, START, actions, d));
      c.cached == Zeroes(SIZE) || exists k | 0 <= k < |h| ::
        Daemon.Succeeds(h[k].readings) && c.cached == layout(Daemon.Carried(h[..k + 1], snapshots))
  {
    hide Run, Reader.Run, EventsAlong, Possible, Short, Daemon.Carried, Daemon.Succeeds;
    var published := Daemon.Published(h, snapshots);
    var records := Laid(layout, published);
    var c := Reader.Run(Reader.START, EventsAlong(records, START, actions, d));
    CacheIsWritten(records, actions, d);
    if c.cached != Zeroes(SIZE) {
      var w :| 0 <= w < |records| && c.cached == records[w];
      PublishedInRound(h, snapshots, published[w]);
    }
  }

  lemma {:induction false} PublishedInRound(h: seq<Daemon.Round>, snapshots: bool, record: Battery.BatteryStatus)
    requires record in Daemon.Published(h, snapshots)
    ensures exists k | 0 <= k < |h| :: Daemon.Succeeds(h[k].readings) && record == Daemon.Carried(h[..k + 1], snapshots)
    decreases |h|
  {
    hide Daemon.Carried, Daemon.Succeeds;
    var n := |h| - 1;
    if record in Daemon.Published(h[..n], snapshots) {
      PublishedInRound(h[..n], snapshots, record);
      var k :| 0 <= k < n && Daemon.Succeeds(h[..n][k].readings)
            && record == Daemon.Carried(h[..n][..k + 1], snapshots);
      assert h[..n][..k + 1] == h[..k + 1];
      assert Daemon.Succeeds(h[k].readings);
    } else {
      assert h[..n + 1] == h;
      assert Daemon.Succeeds(h[n].readings) && record == Daemon.Carried(h[..n + 1], snapshots);
    }
  }
}
