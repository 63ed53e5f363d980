/** The reader thread of the SCUD485 client: records out of a byte stream. */
module ClientReader {
  import opened Bytes

  /** sizeof(BatteryStatus). */
  const SIZE := 126

  /** What happens to the reader in one turn of its loop: a connection attempt, or the outcome of poll and
      read on the socket. `now` is the clock read when a record is complete, -1 when it fails. */
  datatype Event =
    | Connects
    | ConnectFails
    | PollError
    | Interrupted
    | Silence
    | HangUp
    | ReadError
    | EndOfFile
    | Arrives(bytes: seq<byte>, now: int)

  // ---- the meaning of a history of events --------------------------------------------------------------

  /** The k-th record of a session. */
  function Record(session: seq<byte>, k: nat): seq<byte>
    requires (k + 1) * SIZE <= |session|
  {
    session[k * SIZE..(k + 1) * SIZE]
  }

  /** The client as a whole: is the socket open, the bytes read in the present session, the cache, the time
      stamp, the sessions that are over and the records published, with the session each is from. */
  datatype Client = Client(open: bool, session: seq<byte>, cached: seq<byte>, lastRx: int,
                           past: seq<seq<byte>>, published: seq<seq<byte>>)

  const START := Client(false, [], Zeroes(SIZE), -1, [], [])

  /** The end of a session. */
  function Closed(c: Client): Client {
    c.(open := false, past := c.past + [c.session], session := [], lastRx := -1)
  }

  /** The records that are complete after n bytes and were not before. */
  function NewRecords(session: seq<byte>, before: nat): seq<seq<byte>>
    requires before <= |session| / SIZE
    decreases |session| / SIZE - before
  {
    if before == |session| / SIZE then []
    else [Record(session, before)] + NewRecords(session, before + 1)
  }

  function Received(c: Client, bytes: seq<byte>, now: int): Client {
    var session := c.session + bytes;
    MoreBytesMoreRecords(|c.session|, |bytes|);
    var records := NewRecords(session, |c.session| / SIZE);
    if records == [] then c.(session := session)
    else c.(session := session, cached := records[|records| - 1], lastRx := now,
            published := c.published + records)
  }

  lemma MoreBytesMoreRecords(m: nat, n: nat)
    ensures m / SIZE <= (m + n) / SIZE
  {}

  function Step(c: Client, e: Event): Client {
    if !c.open then (if e.Connects? then c.(open := true) else c)
    else
      match e
      case Arrives(bytes, now) => if bytes == [] then Closed(c) else Received(c, bytes, now)
      case Silence => if |c.session| % SIZE > 0 then Closed(c) else c
      case Interrupted => c
      case Connects => c
      case ConnectFails => c
      case _ => Closed(c)
  }

  function Run(c: Client, events: seq<Event>): Client
    decreases events
  {
    if events == [] then c else Run(Step(c, events[0]), events[1..])
  }

  // ---- the reader --------------------------------------------------------------------------------------

  class ScudBmsDriver {
    var sockOpen: bool
    var connected: bool
    var lastRxUs: int
    var cached: seq<byte>
    ghost var past: seq<seq<byte>>
    ghost var published: seq<seq<byte>>

    /** The client seen from outside, when the present session has brought these bytes. */
    ghost function Seen(session: seq<byte>): Client
      reads this
    {
      Client(sockOpen, session, cached, lastRxUs, past, published)
    }

    constructor ()
      ensures Seen([]) == START && !connected
    {
      sockOpen, connected, lastRxUs, cached, past, published := false, false, -1, Zeroes(SIZE), [], [];
    }

    /** disconnect, on an open socket or on one that is closed already. */
    method Disconnect(ghost session: seq<byte>)
      modifies this
      ensures !connected && !sockOpen
      ensures Seen([]) == if old(sockOpen) then Closed(old(Seen(session))) else old(Seen([])).(lastRx := -1)
    {
      if sockOpen {
        sockOpen := false;
        past := past + [session];
      }
      connected := false;
      lastRxUs := -1;
    }

    /** One read: as many bytes as fit the record; a full record is published. */
    method TakeBytes(bytes: seq<byte>, now: int, wire: array<byte>, had: nat, ghost session: seq<byte>)
      returns (n: nat, got: nat)
      requires sockOpen && connected && bytes != [] && wire.Length == SIZE
      requires Accumulated(wire[..], had, session)
      modifies this`cached, this`lastRxUs, this`published, wire
      ensures 0 < n <= |bytes|
      ensures Seen(session + bytes[..n]) == Received(old(Seen(session)), bytes[..n], now)
      ensures Accumulated(wire[..], got, session + bytes[..n])
    {
      hide Received, Accumulated;
      AccumulatedPart(wire[..], had, session);
      n := if |bytes| <= SIZE - had then |bytes| else SIZE - had;
      ghost var was := wire[..];
      ReceivedWithinRecord(Seen(session), bytes[..n], now);
      CopyInto(bytes[..n], wire, had);
      got := had + n;
      AccumulatedMore(was, had, session, bytes[..n], wire[..]);
      if got < SIZE { return; }
      cached := wire[..];
      lastRxUs := now;
      published := published + [wire[..]];
      got := 0;
    }

    /** reader_loop: `wire` accumulates, and a record is published when it is full. */
    method ReaderLoop(events: seq<Event>) returns (ghost session: seq<byte>)
      requires Seen([]) == START && !connected
      modifies this
      ensures Seen(session) == Run(START, events)
      ensures connected == sockOpen
    {
      hide Received, Closed, Accumulated, Run;
      var wire := new byte[SIZE](_ => 0);
      var got := 0;
      session := [];
      NothingAccumulated(wire[..]);
      var todo := events;
      while todo != []
        invariant Run(Seen(session), todo) == Run(START, events)
        invariant connected == sockOpen && (!sockOpen ==> session == [])
        invariant Accumulated(wire[..], got, session)
        decreases |todo|, if todo != [] && todo[0].Arrives? then |todo[0].bytes| else 0
      {
        var e := todo[0];
        RunOne(Seen(session), todo);
        AccumulatedPart(wire[..], got, session);
        NothingAccumulated(wire[..]);
        if !sockOpen {
          if e.Connects? {
            sockOpen := true;
            connected := true;
          }
          todo := todo[1..];
          continue;
        }
        match e {
          case Connects => todo := todo[1..];
          case ConnectFails => todo := todo[1..];
          case Interrupted => todo := todo[1..];
          case Silence =>
            if got > 0 {
              Disconnect(session);
              session, got := [], 0;
            }
            todo := todo[1..];
          case Arrives(bytes, now) =>
            if bytes == [] {
              Disconnect(session);
              session, got := [], 0;
              todo := todo[1..];
            } else {
              ghost var before := Seen(session);
              var n;
              n, got := TakeBytes(bytes, now, wire, got, session);
              OneRead(before, bytes, n, now, todo);
              todo := if n < |bytes| then [Arrives(bytes[n..], now)] + todo[1..] else todo[1..];
              session := session + bytes[..n];
            }
          case _ =>
            Disconnect(session);
            session, got := [], 0;
            todo := todo[1..];
        }
      }
      RunNone(Seen(session));
    }
  }

  /** The first `got` bytes of the buffer are the part of a record the session ends with. */
  predicate Accumulated(wire: seq<byte>, got: nat, session: seq<byte>) {
    && |wire| == SIZE && got == |session| % SIZE
    && wire[..got] == session[|session| - got..]
  }

  lemma AccumulatedPart(wire: seq<byte>, got: nat, session: seq<byte>)
    requires Accumulated(wire, got, session)
    ensures got == |session| % SIZE < SIZE && |wire| == SIZE
  {}

  lemma NothingAccumulated(wire: seq<byte>)
    ensures |wire| == SIZE ==> Accumulated(wire, 0, [])
  {}

  lemma AccumulatedMore(was: seq<byte>, had: nat, session: seq<byte>, more: seq<byte>, wire: seq<byte>)
    requires Accumulated(was, had, session) && had + |more| <= SIZE && |wire| == SIZE
    requires wire[..had] == was[..had] && wire[had..had + |more|] == more
    ensures var s := session + more;
      && (had + |more| < SIZE ==> Accumulated(wire, had + |more|, s))
      && (had + |more| == SIZE ==> |s| >= SIZE && wire == s[|s| - SIZE..] && Accumulated(wire, 0, s))
  {
    var s, got := session + more, had + |more|;
    SameTail(was, had, session, more, wire);
    Quotient(|session|, |more|);
    if got == SIZE { assert wire[..got] == wire; }
  }

  lemma SameTail(was: seq<byte>, had: nat, session: seq<byte>, more: seq<byte>, wire: seq<byte>)
    requires had <= |was| && had <= |session| && had + |more| <= |wire|
    requires was[..had] == session[|session| - had..]
    requires wire[..had] == was[..had] && wire[had..had + |more|] == more
    ensures var s, got := session + more, had + |more|;
      wire[..got] == s[|s| - got..]
  {
    var s, got := session + more, had + |more|;
    assert wire[..got] == wire[..had] + wire[had..got];
    assert s[|s| - got..] == session[|session| - had..] + more;
  }

  lemma RunOne(c: Client, events: seq<Event>)
    requires events != []
    ensures Run(c, events) == Run(Step(c, events[0]), events[1..])
  {}

  lemma RunNone(c: Client)
    ensures Run(c, []) == c
  {}

  // ---- records of a growing session --------------------------------------------------------------------

  lemma {:induction false} NewRecordsGrow(session: seq<byte>, more: seq<byte>, from: nat)
    requires from <= |session| / SIZE <= |session + more| / SIZE
    ensures NewRecords(session + more, from)
         == NewRecords(session, from) + NewRecords(session + more, |session| / SIZE)
    decreases |session| / SIZE - from
  {
    if from < |session| / SIZE {
      RecordFits(|session|, from);
      assert Record(session + more, from) == Record(session, from);
      NewRecordsGrow(session, more, from + 1);
    }
  }

  lemma RecordFits(n: nat, k: nat)
    requires k < n / SIZE
    ensures (k + 1) * SIZE <= n
  {}

  /** Bytes can be received in one piece or in two. */
  lemma ReceivedInPieces(c: Client, a: seq<byte>, b: seq<byte>, now: int)
    ensures Received(Received(c, a, now), b, now) == Received(c, a + b, now)
  {
    hide NewRecords;
    var s := c.session;
    assert s + (a + b) == (s + a) + b;
    MoreBytesMoreRecords(|s|, |a|);
    MoreBytesMoreRecords(|s + a|, |b|);
    NewRecordsGrow(s + a, b, |s| / SIZE);
    assert c.published + (NewRecords(s + a, |s| / SIZE) + NewRecords(s + a + b, |s + a| / SIZE))
        == (c.published + NewRecords(s + a, |s| / SIZE)) + NewRecords(s + a + b, |s + a| / SIZE);
  }

  lemma Quotient(m: nat, n: nat)
    requires m % SIZE + n <= SIZE
    ensures m % SIZE + n < SIZE ==> (m + n) / SIZE == m / SIZE && (m + n) % SIZE == m % SIZE + n
    ensures m % SIZE + n == SIZE ==>
              (m + n) / SIZE == m / SIZE + 1 && (m + n) % SIZE == 0 && (m / SIZE + 1) * SIZE == m + n
  {}

  /** Within one record nothing is published; the bytes that fill it publish the last SIZE bytes. */
  lemma ReceivedWithinRecord(c: Client, bytes: seq<byte>, now: int)
    requires |c.session| % SIZE + |bytes| <= SIZE
    ensures var s, got := c.session + bytes, |c.session| % SIZE;
      && (got + |bytes| < SIZE ==> Received(c, bytes, now) == c.(session := s) && |s| % SIZE == got + |bytes|)
      && (got + |bytes| == SIZE ==>
            && |s| >= SIZE && |s| % SIZE == 0
            && var record := s[|s| - SIZE..];
               Received(c, bytes, now)
               == c.(session := s, cached := record, lastRx := now, published := c.published + [record]))
  {
    var s, k := c.session + bytes, |c.session| / SIZE;
    Quotient(|c.session|, |bytes|);
    if |c.session| % SIZE + |bytes| == SIZE {
      assert NewRecords(s, k + 1) == [];
      assert NewRecords(s, k) == [Record(s, k)];
      assert Record(s, k) == s[|s| - SIZE..];
    }
  }

  /** One read of n of the bytes that are there; the rest stays to be read. */
  lemma OneRead(c: Client, bytes: seq<byte>, n: nat, now: int, todo: seq<Event>)
    requires c.open && todo != [] && todo[0] == Arrives(bytes, now)
    requires 0 < n <= |bytes|
    ensures Run(c, todo)
         == Run(Received(c, bytes[..n], now),
                if n < |bytes| then [Arrives(bytes[n..], now)] + todo[1..] else todo[1..])
  {
    hide Received;
    RunOne(c, todo);
    if n < |bytes| {
      var c', rest := Received(c, bytes[..n], now), [Arrives(bytes[n..], now)] + todo[1..];
      StaysOpen(c, bytes[..n], now);
      RunOne(c', rest);
      assert rest[1..] == todo[1..];
      ReceivedInPieces(c, bytes[..n], bytes[n..], now);
      assert bytes[..n] + bytes[n..] == bytes;
    } else {
      assert bytes[..n] == bytes;
    }
  }

  lemma StaysOpen(c: Client, bytes: seq<byte>, now: int)
    ensures Received(c, bytes, now).open == c.open
  {}

  /** What ends a session: every error of poll and read, the end of the stream, and silence with a part of a
      record read. An interruption, or silence between records, changes nothing. */
  lemma WhatEndsASession(c: Client, e: Event)
    requires c.open
    ensures Step(c, e)
         == if e.PollError? || e.HangUp? || e.ReadError? || e.EndOfFile? || (e.Arrives? && e.bytes == [])
               || (e.Silence? && |c.session| % SIZE != 0)
            then Client(false, [], c.cached, -1, c.past + [c.session], c.published)
            else if e.Arrives? then Received(c, e.bytes, e.now)
            else c
  {
    hide Received;
  }

  // ---- what is published -------------------------------------------------------------------------------

  /** All whole records of a session, and of the sessions that are over. */
  function Records(session: seq<byte>): seq<seq<byte>> { NewRecords(session, 0) }

  function PastRecords(past: seq<seq<byte>>): seq<seq<byte>> {
    if past == [] then [] else PastRecords(past[..|past| - 1]) + Records(past[|past| - 1])
  }

  /** Published are exactly the aligned records of each session, in order: n bytes of a session make n
      divided by SIZE records, and no record has bytes of two. The cache is the last of them, or all
      zeros; a time stamp means that the present session has published. */
  predicate Sound(c: Client) {
    && c.published == PastRecords(c.past) + Records(c.session)
    && c.cached == (if c.published == [] then Zeroes(SIZE) else c.published[|c.published| - 1])
    && (!c.open ==> c.session == [] && c.lastRx == -1)
    && (c.lastRx >= 0 ==> |c.session| >= SIZE)
  }

  lemma {:induction false} RecordsAreAligned(session: seq<byte>, from: nat, k: nat)
    requires from <= k < |session| / SIZE
    ensures |NewRecords(session, from)| == |session| / SIZE - from
    ensures NewRecords(session, from)[k - from] == Record(session, k)
    decreases k - from
  {
    NewRecordsCount(session, from);
    if from < k { RecordsAreAligned(session, from + 1, k); }
  }

  lemma {:induction false} NewRecordsCount(session: seq<byte>, from: nat)
    requires from <= |session| / SIZE
    ensures |NewRecords(session, from)| == |session| / SIZE - from
    decreases |session| / SIZE - from
  {
    if from < |session| / SIZE { NewRecordsCount(session, from + 1); }
  }

  lemma {:induction false} RunKeepsSound(c: Client, events: seq<Event>)
    requires Sound(c)
    ensures Sound(Run(c, events))
    decreases events
  {
    hide Sound, Step;
    if events != [] {
      StepIsSound(c, events[0]);
      RunKeepsSound(Step(c, events[0]), events[1..]);
    }
  }

  /** For every fragmentation, every error and every reconnection. */
  lemma RunIsSound(events: seq<Event>)
    ensures Sound(Run(START, events))
  {
    hide Run;
    RunKeepsSound(START, events);
  }

  /** r is one whole aligned record of one of these sessions. */
  ghost predicate OfOneSession(r: seq<byte>, past: seq<seq<byte>>, session: seq<byte>) {
    exists s: seq<byte>, k: nat :: IsRecordOf(r, s, k) && (s == session || s in past)
  }

  predicate IsRecordOf(r: seq<byte>, s: seq<byte>, k: nat) {
    k < |s| / SIZE && r == Record(s, k)
  }

  lemma RecordIsOfSession(session: seq<byte>, i: nat)
    requires i < |Records(session)|
    ensures IsRecordOf(Records(session)[i], session, i)
  {
    NewRecordsCount(session, 0);
    RecordsAreAligned(session, 0, i);
  }

  lemma {:induction false} PastRecordIsOfSession(past: seq<seq<byte>>, i: nat)
    requires i < |PastRecords(past)|
    ensures exists s: seq<byte>, k: nat :: IsRecordOf(PastRecords(past)[i], s, k) && s in past
    decreases |past|
  {
    hide Records, IsRecordOf;
    var before, last := past[..|past| - 1], past[|past| - 1];
    var n := |PastRecords(before)|;
    if i < n {
      PastRecordIsOfSession(before, i);
      var s: seq<byte>, k: nat :| IsRecordOf(PastRecords(before)[i], s, k) && s in before;
      assert IsRecordOf(PastRecords(past)[i], s, k) && s in past;
    } else {
      RecordIsOfSession(last, i - n);
      assert IsRecordOf(PastRecords(past)[i], last, i - n) && last in past;
    }
  }

  /** What the getters read is always all zeros or one whole aligned record of one session; and a session
      of n bytes adds n / SIZE records to those published. */
  lemma CacheIsOneRecord(events: seq<Event>)
    ensures var c := Run(START, events);
      && (c.cached == Zeroes(SIZE) || OfOneSession(c.cached, c.past, c.session))
      && |c.published| == |PastRecords(c.past)| + |c.session| / SIZE
  {
    hide Run, Records, PastRecords, Step, Record;
    RunIsSound(events);
    var c := Run(START, events);
    CountRecords(c.session);
    if c.published != [] {
      var i, n := |c.published| - 1, |PastRecords(c.past)|;
      if i < n { PastRecordIsOfSession(c.past, i); } else { RecordIsOfSession(c.session, i - n); }
    }
  }

  lemma CountRecords(session: seq<byte>)
    ensures |Records(session)| == |session| / SIZE
  {
    NewRecordsCount(session, 0);
  }

  lemma StepIsSound(c: Client, e: Event)
    requires Sound(c)
    ensures Sound(Step(c, e))
  {
    hide Received, Sound, Closed;
    OpensSound(c);
    ClosedIsSound(c);
    if e.Arrives? && c.open { ReceivedIsSound(c, e.bytes, e.now); }
  }

  lemma OpensSound(c: Client)
    requires Sound(c)
    ensures !c.open ==> Sound(c.(open := true))
  {}

  lemma ClosedIsSound(c: Client)
    requires Sound(c)
    ensures Sound(Closed(c))
  {
    assert (c.past + [c.session])[..|c.past|] == c.past;
    assert Records([]) == [];
  }

  lemma SessionGrows(session: seq<byte>, bytes: seq<byte>)
    ensures |session| / SIZE <= |session + bytes| / SIZE
    ensures var added := NewRecords(session + bytes, |session| / SIZE);
      && Records(session + bytes) == Records(session) + added
      && (added != [] ==> |session + bytes| >= SIZE)
  {
    MoreBytesMoreRecords(|session|, |bytes|);
    NewRecordsGrow(session, bytes, 0);
  }

  lemma ReceivedIsSound(c: Client, bytes: seq<byte>, now: int)
    requires Sound(c) && c.open
    ensures Sound(Received(c, bytes, now))
  {
    hide NewRecords, Records, PastRecords;
    SessionGrows(c.session, bytes);
    var added := NewRecords(c.session + bytes, |c.session| / SIZE);
    assert PastRecords(c.past) + (Records(c.session) + added) == (PastRecords(c.past) + Records(c.session)) + added;
  }
}
