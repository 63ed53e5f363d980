/** How the SCUD485 receiver gets over candidates that turn out not to be frames. */
module ScudRecovery {
  import opened Wrappers
  import opened Bytes
  import opened ScudReceiver
  import opened ScudReception
  import ScudProtocol
  import Ccitt

  // ---- the stabilisation bound -----------------------------------------------------------------------

  /** The bytes a state still takes before it has judged its candidate. */
  function Remaining(t: Target, st: State): nat
    requires WellFormed(t, st)
  {
    match st.stage
    case Payload => t.Size() - |st.body| + 3
    case CrcHi => 3
    case CrcLo => 2
    case Tail => 1
    case _ => 0
  }

  lemma RemainingBound(t: Target, st: State)
    requires WellFormed(t, st)
    ensures Remaining(t, st) <= t.Size() + 3
    ensures IsHead(st) || Remaining(t, st) + |History(t, st)| == t.Size() + 7
  {}

  lemma StepUsesOne(t: Target, st: State, b: byte)
    requires WellFormed(t, st) && !IsHead(st) && Step(t, st, b).Running?
    requires WellFormed(t, Step(t, st, b).st)
    ensures Remaining(t, Step(t, st, b).st) == Remaining(t, st) - 1
  {
    hide Ccitt.Checks, Target.Size;
    SizeIs(t, st.len);
  }

  /** From any state, after at most expect_len + 3 bytes the machine is back in a head stage, or has
      delivered. */
  lemma {:induction false} Stabilises(t: Target, st: State, s: seq<byte>)
    requires WellFormed(t, st) && |s| == Remaining(t, st)
    ensures match After(t, st, s)
            case Delivered(_) => true
            case Running(st') => IsHead(st') && WellFormed(t, st')
    decreases |s|
  {
    RemainingBound(t, st);
    if s != [] {
      assert !IsHead(st);
      AfterFirst(t, st, s);
      StepKeepsWellFormed(t, st, s[0]);
      match Step(t, st, s[0]) {
        case Delivered(_) =>
        case Running(st') =>
          StepUsesOne(t, st, s[0]);
          Stabilises(t, st', s[1..]);
      }
    }
  }

  /** From any state inside a candidate that will be rejected, a valid frame that starts at the tail byte
      of the candidate or later, with no other FE FE CMD LEN in between, is delivered. */
  lemma RecoversAfterRejection(t: Target, st: State, s: seq<byte>, p: nat)
    requires Matchable(t) && WellFormed(t, st) && !IsHead(st)
    requires Remaining(t, st) - 1 <= p && Occurs(t, s, p) && Valid(t, s, p)
    requires !Valid(t, History(t, st) + s, 0)
    requires forall i | Remaining(t, st) - 1 <= i < p :: !Occurs(t, s, i)
    ensures Run(t, st, s) == Some((PayloadAt(t, s, p), TailAt(t, p) + 1))
  {
    hide Run, Expected, Valid, Scan, Occurs, History, WellFormed;
    var h := History(t, st);
    RemainingBound(t, st);
    BodyStage(t, st, s);
    ValidIsComplete(t, s, p);
    OccursBehind(t, h, s, p);
    NothingBehind(t, h, s, Remaining(t, st) - 1, p);
    ScanAfterRejection(t, h + s, |h| + p);
    RunIsScan(t, st, s);
    ExpectedAt(t, h, s, p);
  }

  lemma OccursBehind(t: Target, h: seq<byte>, s: seq<byte>, i: nat)
    ensures Occurs(t, h + s, |h| + i) == Occurs(t, s, i)
    ensures Valid(t, h + s, |h| + i) == Valid(t, s, i)
  {
    hide Valid;
    assert (h + s)[|h|..] == s;
    ValidShifts(t, h + s, |h|, i);
  }

  lemma NothingBehind(t: Target, h: seq<byte>, s: seq<byte>, from: nat, p: nat)
    requires forall i | from <= i < p :: !Occurs(t, s, i)
    ensures forall i | |h| + from <= i < |h| + p :: !Occurs(t, h + s, i)
  {
    hide Occurs;
    forall i | |h| + from <= i < |h| + p ensures !Occurs(t, h + s, i) {
      OccursBehind(t, h, s, i - |h|);
    }
  }

  lemma ScanAfterRejection(t: Target, w: seq<byte>, q: nat)
    requires First(t, w, 0) == Some(0) && !Valid(t, w, 0)
    requires TailAt(t, 0) <= q && Occurs(t, w, q) && Valid(t, w, q)
    requires forall i | TailAt(t, 0) <= i < q :: !Occurs(t, w, i)
    ensures Scan(t, w, 0) == Some(q)
  {
    hide Valid;
    ScanSkips(t, w, TailAt(t, 0), q);
    ScanAccepts(t, w, q);
    ValidIsComplete(t, w, q);
  }

  lemma ValidIsComplete(t: Target, s: seq<byte>, i: nat)
    ensures Valid(t, s, i) ==> TailAt(t, i) < |s|
  {}

  lemma ExpectedAt(t: Target, h: seq<byte>, s: seq<byte>, p: nat)
    requires TailAt(t, p) < |s| && Scan(t, h + s, 0) == Some(|h| + p)
    ensures Expected(t, h, s) == Some((PayloadAt(t, s, p), TailAt(t, p) + 1))
  {
    hide Scan, Valid;
    PayloadBehind(t, h, s, p);
  }

  lemma PayloadBehind(t: Target, h: seq<byte>, s: seq<byte>, p: nat)
    requires TailAt(t, p) < |s|
    ensures TailAt(t, |h| + p) < |h + s| && PayloadAt(t, h + s, |h| + p) == PayloadAt(t, s, p)
  {}

  // ---- what is lost ----------------------------------------------------------------------------------

  /** The occurrences the scan tries, when none it tries is valid: the first one, and from the tail byte of
      one that was rejected the next. */
  predicate Tried(t: Target, s: seq<byte>, from: nat, q: nat)
    decreases |s| - from
  {
    match First(t, s, from)
    case None => false
    case Some(i) => q == i || (TailAt(t, i) < |s| && !Valid(t, s, i) && Tried(t, s, TailAt(t, i), q))
  }

  /** Every candidate tried before p has been rejected, and its tail byte comes no later than p. */
  predicate Clears(t: Target, s: seq<byte>, from: nat, p: nat) {
    forall q: nat | q < p && Tried(t, s, from, q) :: !Valid(t, s, q) && TailAt(t, q) <= p
  }

  /** What is tried are occurrences. */
  lemma {:induction false} TriedOccurs(t: Target, s: seq<byte>, from: nat, q: nat)
    requires Tried(t, s, from, q)
    ensures from <= q && Occurs(t, s, q)
    decreases |s| - from
  {
    hide Valid, Occurs;
    var i := First(t, s, from).value;
    if q != i { TriedOccurs(t, s, TailAt(t, i), q); }
  }

  lemma TriedNext(t: Target, s: seq<byte>, from: nat, q: nat)
    requires First(t, s, from).Some?
    ensures var i := First(t, s, from).value;
      Tried(t, s, from, q) <==> q == i || (TailAt(t, i) < |s| && !Valid(t, s, i) && Tried(t, s, TailAt(t, i), q))
  {
    hide Valid, First;
  }

  /** A valid frame is delivered if and only if no candidate that was tried before it is valid or reaches
      over its first byte. */
  lemma {:induction false} ScanFindsIff(t: Target, s: seq<byte>, from: nat, p: nat)
    requires from <= p && Occurs(t, s, p) && Valid(t, s, p)
    ensures Scan(t, s, from) == Some(p) <==> Clears(t, s, from, p)
    decreases |s| - from
  {
    hide Valid, Tried, Occurs, TailAt;
    ValidIsComplete(t, s, p);
    var i := First(t, s, from).value;
    forall q: nat ensures Tried(t, s, from, q)
                     <==> q == i || (TailAt(t, i) < |s| && !Valid(t, s, i) && Tried(t, s, TailAt(t, i), q))
    {
      TriedNext(t, s, from, q);
    }
    if i < p {
      if !Valid(t, s, i) && TailAt(t, i) <= p {
        TailIsLater(t, i);
        ScanFindsIff(t, s, TailAt(t, i), p);
      }
    }
  }

  lemma TailIsLater(t: Target, i: nat)
    ensures i < TailAt(t, i)
  {}

  /** So it is with the machine: it delivers the frame at p, and at its tail byte, if and only if every
      candidate tried before was rejected and p does not lie inside it. */
  lemma DeliveredIff(t: Target, s: seq<byte>, p: nat)
    requires Matchable(t) && Occurs(t, s, p) && Valid(t, s, p)
    ensures TailAt(t, p) < |s|
    ensures Run(t, START, s) == Some((PayloadAt(t, s, p), TailAt(t, p) + 1)) <==> Clears(t, s, 0, p)
  {
    hide Valid, Occurs, Run, Scan, Clears, Target.Size;
    ValidIsComplete(t, s, p);
    ScanFindsIff(t, s, 0, p);
    ScudProtocol.StartIsScan(t, s);
  }

  /** So not every valid frame is delivered: for every target of at least two payload bytes there is a
      stream that holds a valid frame, and nothing is delivered. */
  lemma SomeFrameIsMissed(t: Target)
    requires t.cmd != HEAD && t.Size() >= 2
    ensures exists s, p :: Occurs(t, s, p) && Valid(t, s, p) && Run(t, START, s) == None
  {
    hide Ccitt.Crc, Ccitt.Checks, Ccitt.WireBytes, Run;
    var payload := Zeroes(t.Size());
    var f := FrameOf(t, payload);
    var s := t.Prefix() + f + [];
    FrameParts(t, payload);
    FrameIsValid(t, t.Prefix(), payload, []);
    MissedStream(t, f);
    assert s == t.Prefix() + f;
    ScudProtocol.StartIsScan(t, s);
    assert Occurs(t, s, 4) && Valid(t, s, 4) && Run(t, START, s) == None;
  }

  lemma MissedStream(t: Target, f: seq<byte>)
    requires t.cmd != HEAD && t.Size() >= 2 && |f| == t.Size() + 7
    requires f[4..4 + t.Size()] == Zeroes(t.Size())
    ensures Scan(t, t.Prefix() + f, 0) == None
  {
    hide Valid, Target.Prefix;
    var s, k := t.Prefix() + f, TailAt(t, 0);
    MissedBytes(t, f);
    assert First(t, s, 0) == Some(0);
    assert Scan(t, s, 0) == Scan(t, s, k);
    ScanSkips(t, s, k, k + 2);
  }

  lemma MissedBytes(t: Target, f: seq<byte>)
    requires t.Size() >= 2 && |f| == t.Size() + 7
    requires f[4..4 + t.Size()] == Zeroes(t.Size())
    ensures var s, k := t.Prefix() + f, TailAt(t, 0);
      && |s| == k + 5 && s[k] == 0 && s[k + 1] == 0
      && Occurs(t, s, 0) && !Valid(t, s, 0)
  {
    hide Ccitt.Checks;
    var s, n := t.Prefix() + f, t.Size();
    assert f[n + 2] == f[4..4 + n][n - 2] == 0 && f[n + 3] == f[4..4 + n][n - 1] == 0;
    assert s[TailAt(t, 0)] == f[n + 2] && s[TailAt(t, 0) + 1] == f[n + 3];
  }

  // ---- which commands the head automaton is right for --------------------------------------------------

  /** The machine delivers what a scan delivers, on every stream. */
  ghost predicate RefinesScan(t: Target) {
    forall s :: Run(t, START, s) == Expected(t, [], s)
  }

  /** The machine refines the scan exactly for the targets whose command byte is not FE, or whose length
      byte is FE as well: after FE FE FE the fallback of the length stage forgets one FE too many. */
  lemma RefinesScanIff(t: Target)
    ensures RefinesScan(t) <==> t.cmd != HEAD || t.len == HEAD
  {
    hide Run, Expected;
    if Matchable(t) {
      forall s ensures Run(t, START, s) == Expected(t, [], s) { RunIsScan(t, START, s); }
    } else {
      var s := OddRun(t);
      OddRunExpected(t);
      OddRunMissed(t);
      assert Run(t, START, s) != Expected(t, [], s);
    }
  }

  /** A frame after one stray FE. */
  function OddRun(t: Target): seq<byte> { [HEAD] + FrameOf(t, Zeroes(t.Size())) }

  lemma OddRunExpected(t: Target)
    requires t.cmd == HEAD && t.len != HEAD
    ensures Expected(t, [], OddRun(t)).Some?
  {
    hide Ccitt.Crc, Ccitt.Checks, Ccitt.WireBytes, Valid, Scan, FrameOf;
    var payload := Zeroes(t.Size());
    var s := OddRun(t);
    assert [HEAD] + FrameOf(t, payload) + [] == s == [] + s;
    FrameParts(t, payload);
    FrameIsValid(t, [HEAD], payload, []);
    assert s[3] == FrameOf(t, payload)[2];
    ScanSkips(t, s, 0, 1);
    ScanAccepts(t, s, 1);
  }

  lemma OddRunMissed(t: Target)
    requires t.cmd == HEAD && t.len != HEAD
    ensures Run(t, START, OddRun(t)) == None
  {
    hide Run, Step, OddRun;
    var s, n := OddRun(t), t.Size();
    OddRunParts(t);
    OddHead(t, s);
    ShortRun(t, OddState(t), s[5 + n..]);
    ZerosKeepHead1(t, OddState(t), n, s[5 + n..]);
  }

  lemma OddRunParts(t: Target)
    requires t.cmd == HEAD
    ensures var s, n := OddRun(t), t.Size();
      && |s| == n + 8
      && s[0] == HEAD && s[1] == HEAD && s[2] == HEAD && s[3] == HEAD && s[4] == t.len
      && s[5..] == Zeroes(n) + s[5 + n..]
  {
    hide Ccitt.Crc, Ccitt.WireBytes, FrameOf, Target.Size, Zeroes;
    var n := t.Size();
    var payload := Zeroes(n);
    var f, s := FrameOf(t, payload), OddRun(t);
    FrameParts(t, payload);
    assert s[1..] == f;
    assert s[5..5 + n] == s[1..][4..4 + n] == payload;
    assert s[5..] == s[5..5 + n] + s[5 + n..];
  }

  /** The state FE FE FE FE LEN leads to when the command byte is FE and LEN is not. */
  function OddState(t: Target): State { START.(stage := Head1, cmd := HEAD, len := HEAD) }

  lemma OddHead(t: Target, s: seq<byte>)
    requires t.cmd == HEAD && t.len != HEAD && |s| >= 5
    requires s[0] == HEAD && s[1] == HEAD && s[2] == HEAD && s[3] == HEAD && s[4] == t.len
    ensures Run(t, START, s) == None <==> Run(t, OddState(t), s[5..]) == None
  {
    hide Run;
    var st1 := START.(stage := Head2);
    var st2 := st1.(stage := Cmd);
    var st3 := st2.(cmd := HEAD, stage := Len);
    var st4 := st3.(len := HEAD, stage := Head2);
    OneStep(t, START, s, st1);
    OneStep(t, st1, s[1..], st2);
    OneStep(t, st2, s[2..], st3);
    OneStep(t, st3, s[3..], st4);
    OneStep(t, st4, s[4..], OddState(t));
    assert s[1..][1..] == s[2..] && s[2..][1..] == s[3..] && s[3..][1..] == s[4..] && s[4..][1..] == s[5..];
  }

  lemma OneStep(t: Target, st: State, s: seq<byte>, st': State)
    requires s != [] && Step(t, st, s[0]) == Running(st')
    ensures Run(t, st, s) == None <==> Run(t, st', s[1..]) == None
  {}

  lemma {:induction false} ZerosKeepHead1(t: Target, st: State, n: nat, s: seq<byte>)
    requires st.stage.Head1?
    requires Run(t, st, s) == None
    ensures Run(t, st, Zeroes(n) + s) == None
    decreases n
  {
    if n == 0 {
      assert Zeroes(n) + s == s;
    } else {
      var z: seq<byte> := Zeroes(n);
      ZerosKeepHead1(t, st, n - 1, s);
      assert (z + s)[1..] == Zeroes(n - 1) + s;
      assert (z + s)[0] == 0;
    }
  }

  lemma {:induction false} ShortRun(t: Target, st: State, s: seq<byte>)
    requires IsHead(st) && Progress(st) + |s| <= 4
    ensures Run(t, st, s) == None
    decreases s
  {
    if s != [] {
      var st' := Step(t, st, s[0]).st;
      if IsHead(st') { ShortRun(t, st', s[1..]); } else { assert s[1..] == []; }
    }
  }
}
