/** The byte-at-a-time receiver of SCUD485 response frames,
    FE FE | CMD | LEN | payload | CRC_H CRC_L | BB. */
module ScudReceiver {
  import opened Wrappers
  import opened Bytes
  import Ccitt

  const HEAD: byte := 0xFE
  const TAIL: byte := 0xBB

  /** The frame a query waits for. */
  datatype Target = Target(cmd: byte, len: byte) {
    function Size(): (n: nat)
      ensures n < 0x100
    {
      ByteBound(len);
      len as int
    }

    function Prefix(): seq<byte> { [HEAD, HEAD, cmd, len] }
  }

  // ---- what the receiver is for: a scan of the whole stream ----------------------------------------

  predicate Occurs(t: Target, s: seq<byte>, i: nat) {
    && i + 4 <= |s|
    && s[i] == HEAD && s[i + 1] == HEAD && s[i + 2] == t.cmd && s[i + 3] == t.len
  }

  /** Index of the tail byte of the candidate that starts at i. */
  function TailAt(t: Target, i: nat): nat { i + t.Size() + 6 }

  function PayloadAt(t: Target, s: seq<byte>, i: nat): seq<byte>
    requires TailAt(t, i) < |s|
  {
    s[i + 4..i + 4 + t.Size()]
  }

  predicate Valid(t: Target, s: seq<byte>, i: nat) {
    && TailAt(t, i) < |s|
    && s[TailAt(t, i)] == TAIL
    && Ccitt.Checks([t.cmd, t.len] + PayloadAt(t, s, i), s[TailAt(t, i) - 2], s[TailAt(t, i) - 1])
  }

  /** The leftmost occurrence at or after `from`. */
  function First(t: Target, s: seq<byte>, from: nat): (r: Option<nat>)
    ensures r.Some? ==> from <= r.value && Occurs(t, s, r.value)
    ensures forall i | from <= i && (r.Some? ==> i < r.value) :: !Occurs(t, s, i)
    decreases |s| - from
  {
    if from + 4 > |s| then None
    else if Occurs(t, s, from) then Some(from)
    else First(t, s, from + 1)
  }

  /** Where the delivered frame starts: try the leftmost occurrence, and when its frame is not valid go
      on from its tail byte. */
  function Scan(t: Target, s: seq<byte>, from: nat): (r: Option<nat>)
    ensures r.Some? ==> from <= r.value && Occurs(t, s, r.value) && Valid(t, s, r.value)
    decreases |s| - from
  {
    match First(t, s, from)
    case None => None
    case Some(i) =>
      if TailAt(t, i) >= |s| then None
      else if Valid(t, s, i) then Some(i)
      else Scan(t, s, TailAt(t, i))
  }

  // ---- the machine -------------------------------------------------------------------------------

  datatype Stage = Head1 | Head2 | Cmd | Len | Payload | CrcHi | CrcLo | Tail

  datatype State = State(stage: Stage, cmd: byte, len: byte, body: seq<byte>, crcHi: byte, crcLo: byte)

  const START := State(Head1, 0, 0, [], 0, 0)

  datatype Outcome = Running(st: State) | Delivered(payload: seq<byte>)

  function Step(t: Target, st: State, b: byte): Outcome {
    match st.stage
    case Head1 => Running(if b == HEAD then st.(stage := Head2) else st)
    case Head2 => Running(if b == HEAD then st.(stage := Cmd, body := []) else st.(stage := Head1))
    case Cmd =>
      Running(if b == t.cmd then st.(cmd := b, stage := Len)
              else if b == HEAD then st
              else st.(stage := Head1))
    case Len =>
      Running(if b != t.len then st.(len := b, stage := if b == HEAD then Head2 else Head1)
              else st.(len := b, body := [], stage := if b == 0 then CrcHi else Payload))
    case Payload =>
      var body := st.body + [b];
      Running(st.(body := body, stage := if |body| == st.len as int then CrcHi else Payload))
    case CrcHi => Running(st.(crcHi := b, stage := CrcLo))
    case CrcLo => Running(st.(crcLo := b, stage := Tail))
    case Tail =>
      if st.cmd == t.cmd && st.len == t.len && b == TAIL
         && Ccitt.Checks([st.cmd, st.len] + st.body, st.crcHi, st.crcLo)
      then Delivered(st.body)
      else Running(st.(stage := if b == HEAD then Head2 else Head1))
  }

  /** The first delivery over a stream: the payload, and how many bytes it took. */
  function Run(t: Target, st: State, s: seq<byte>): (r: Option<(seq<byte>, nat)>)
    ensures r.Some? ==> 0 < r.value.1 <= |s|
    decreases s
  {
    if s == [] then None
    else match Step(t, st, s[0])
      case Delivered(p) => Some((p, 1))
      case Running(st') =>
        match Run(t, st', s[1..])
        case None => None
        case Some((p, n)) => Some((p, n + 1))
  }

  /** The states the machine can be in. */
  predicate WellFormed(t: Target, st: State) {
    match st.stage
    case Head1 => true
    case Head2 => true
    case Cmd => true
    case Len => st.cmd == t.cmd
    case Payload => st.cmd == t.cmd && st.len == t.len && |st.body| < t.Size()
    case CrcHi => st.cmd == t.cmd && st.len == t.len && |st.body| == t.Size()
    case CrcLo => st.cmd == t.cmd && st.len == t.len && |st.body| == t.Size()
    case Tail => st.cmd == t.cmd && st.len == t.len && |st.body| == t.Size()
  }

  /** The bytes the machine remembers: those of the frame it may be inside of. */
  function History(t: Target, st: State): seq<byte> {
    match st.stage
    case Head1 => []
    case Head2 => [HEAD]
    case Cmd => [HEAD, HEAD]
    case Len => [HEAD, HEAD, t.cmd]
    case Payload => t.Prefix() + st.body
    case CrcHi => t.Prefix() + st.body
    case CrcLo => t.Prefix() + st.body + [st.crcHi]
    case Tail => t.Prefix() + st.body + [st.crcHi, st.crcLo]
  }

  /** Targets for which the head stages are the right automaton. */
  predicate Matchable(t: Target) { t.cmd != HEAD || t.len == HEAD }

  /** What a scan of the stream s delivers when the machine already remembers the bytes h. */
  function Expected(t: Target, h: seq<byte>, s: seq<byte>): Option<(seq<byte>, int)> {
    match Scan(t, h + s, 0)
    case None => None
    case Some(i) => Some((PayloadAt(t, h + s, i), TailAt(t, i) + 1 - |h|))
  }

  lemma StepKeepsWellFormed(t: Target, st: State, b: byte)
    requires WellFormed(t, st)
    ensures Step(t, st, b).Running? ==> WellFormed(t, Step(t, st, b).st)
  {
    hide Ccitt.Checks, WellFormed, Step;
    match st.stage {
      case Head1 => HeadStep(t, st, b);
      case Head2 => HeadStep(t, st, b);
      case Cmd => HeadStep(t, st, b);
      case Len => LenStep(t, st, b);
      case Payload => PayloadStep(t, st, b);
      case CrcHi => CrcStep(t, st, b);
      case CrcLo => CrcStep(t, st, b);
      case Tail => TailStep(t, st, b);
    }
  }

  lemma HeadStep(t: Target, st: State, b: byte)
    requires st.stage in {Head1, Head2, Cmd}
    ensures Step(t, st, b).Running? && WellFormed(t, Step(t, st, b).st)
  {
    hide Target.Size;
  }

  lemma LenStep(t: Target, st: State, b: byte)
    requires WellFormed(t, st) && st.stage.Len?
    ensures Step(t, st, b).Running? && WellFormed(t, Step(t, st, b).st)
  {
    hide Target.Size;
    ZeroSize(t);
  }

  lemma PayloadStep(t: Target, st: State, b: byte)
    requires WellFormed(t, st) && st.stage.Payload?
    ensures Step(t, st, b).Running? && WellFormed(t, Step(t, st, b).st)
  {
    SizeIs(t, st.len);
    hide Target.Size;
  }

  lemma SizeIs(t: Target, b: byte)
    ensures b == t.len ==> t.Size() == b as int
  {}

  lemma CrcStep(t: Target, st: State, b: byte)
    requires WellFormed(t, st) && st.stage in {CrcHi, CrcLo}
    ensures Step(t, st, b).Running? && WellFormed(t, Step(t, st, b).st)
  {
    hide Target.Size;
  }

  lemma TailStep(t: Target, st: State, b: byte)
    requires st.stage.Tail?
    ensures Step(t, st, b).Running? ==> WellFormed(t, Step(t, st, b).st)
  {
    hide Target.Size, Ccitt.Checks;
  }

  lemma ZeroSize(t: Target)
    ensures t.Size() == 0 <==> t.len == 0
    ensures 0 <= t.Size() < 0x100
  {
    ByteBound(t.len);
    assert t.len as int == 0 ==> t.len == 0;
  }

  // ---- scans of suffixes -------------------------------------------------------------------------

  lemma {:induction false} FirstSkips(t: Target, s: seq<byte>, from: nat, next: nat)
    requires from <= next
    requires forall i | from <= i < next :: !Occurs(t, s, i)
    ensures First(t, s, from) == First(t, s, next)
    decreases next - from
  {
    if from < next {
      if from + 4 <= |s| { FirstSkips(t, s, from + 1, next); }
    }
  }

  /** Bytes at which no occurrence starts can be skipped. */
  lemma ScanSkips(t: Target, s: seq<byte>, from: nat, next: nat)
    requires from <= next
    requires forall i | from <= i < next :: !Occurs(t, s, i)
    ensures Scan(t, s, from) == Scan(t, s, next)
  {
    hide Valid;
    FirstSkips(t, s, from, next);
  }

  function Shifted(d: nat, r: Option<nat>): Option<nat> {
    match r case None => None case Some(i) => Some(d + i)
  }

  lemma {:induction false} FirstShifts(t: Target, s: seq<byte>, d: nat, from: nat)
    requires d <= |s|
    ensures First(t, s, d + from) == Shifted(d, First(t, s[d..], from))
    decreases |s| - from
  {
    hide Target.Size;
    if d + from + 4 <= |s| && !Occurs(t, s, d + from) { FirstShifts(t, s, d, from + 1); }
  }

  lemma ValidShifts(t: Target, s: seq<byte>, d: nat, i: nat)
    requires d <= |s|
    ensures Valid(t, s, d + i) == Valid(t, s[d..], i)
    ensures TailAt(t, i) < |s[d..]| ==> PayloadAt(t, s, d + i) == PayloadAt(t, s[d..], i)
  {
    hide Ccitt.Checks, Target.Size;
    var u, k := s[d..], TailAt(t, i);
    if k < |u| {
      assert PayloadAt(t, s, d + i) == PayloadAt(t, u, i);
      assert s[d + k] == u[k] && s[d + k - 1] == u[k - 1] && s[d + k - 2] == u[k - 2];
    }
  }

  /** A scan that starts at d is a scan of what follows. */
  lemma {:induction false} ScanShifts(t: Target, s: seq<byte>, d: nat, from: nat)
    requires d <= |s|
    ensures Scan(t, s, d + from) == Shifted(d, Scan(t, s[d..], from))
    decreases |s| - from
  {
    hide Valid, Target.Size, Occurs;
    FirstShifts(t, s, d, from);
    match First(t, s[d..], from) {
      case None =>
      case Some(i) =>
        ValidShifts(t, s, d, i);
        if TailAt(t, i) < |s[d..]| { ScanShifts(t, s, d, TailAt(t, i)); }
    }
  }

  lemma ScanIsComplete(t: Target, s: seq<byte>, from: nat)
    ensures Scan(t, s, from).Some? ==> TailAt(t, Scan(t, s, from).value) < |s|
  {}

  lemma ExpectedShifts(t: Target, h: seq<byte>, s: seq<byte>, h': seq<byte>, s': seq<byte>, d: nat)
    requires d <= |h + s| && (h + s)[d..] == h' + s'
    requires Scan(t, h + s, 0) == Shifted(d, Scan(t, h' + s', 0))
    ensures match Expected(t, h', s')
            case None => Expected(t, h, s).None?
            case Some((p, n)) => Expected(t, h, s) == Some((p, n + d + |h'| - |h|))
  {
    hide Valid, Target.Size, Scan;
    ScanIsComplete(t, h' + s', 0);
    match Scan(t, h' + s', 0) {
      case None =>
      case Some(i) => ValidShifts(t, h + s, d, i);
    }
  }

  /** Dropping d bytes at which no occurrence starts changes nothing but the count. */
  lemma DropBytes(t: Target, h: seq<byte>, s: seq<byte>, h': seq<byte>, s': seq<byte>, d: nat)
    requires d <= |h + s| && (h + s)[d..] == h' + s'
    requires forall i | 0 <= i < d :: !Occurs(t, h + s, i)
    ensures match Expected(t, h', s')
            case None => Expected(t, h, s).None?
            case Some((p, n)) => Expected(t, h, s) == Some((p, n + d + |h'| - |h|))
  {
    hide Valid, Scan, Expected;
    ScanSkips(t, h + s, 0, d);
    ScanShifts(t, h + s, d, 0);
    ExpectedShifts(t, h, s, h', s', d);
  }

  // ---- the machine is the scan ---------------------------------------------------------------------

  lemma BodyStage(t: Target, st: State, s: seq<byte>)
    requires WellFormed(t, st) && st.stage in {Payload, CrcHi, CrcLo, Tail}
    ensures First(t, History(t, st) + s, 0) == Some(0)
    ensures 4 <= |History(t, st)| <= TailAt(t, 0)
  {
    ByteBound(t.len);
    assert Occurs(t, History(t, st) + s, 0);
  }

  lemma EndOfStream(t: Target, st: State)
    requires WellFormed(t, st)
    ensures Expected(t, History(t, st), []) == None
  {
    var h := History(t, st);
    assert h + [] == h;
    if st.stage in {Payload, CrcHi, CrcLo, Tail} { BodyStage(t, st, []); }
  }

  /** A head stage that loses bytes loses none at which a frame could start. */
  lemma HeadFallback(t: Target, st: State, s: seq<byte>)
    requires Matchable(t) && WellFormed(t, st)
    requires s != [] && st.stage in {Head1, Head2, Cmd, Len}
    requires History(t, Step(t, st, s[0]).st) != History(t, st) + [s[0]]
    ensures var h, h' := History(t, st), History(t, Step(t, st, s[0]).st);
      var d := |h| + 1 - |h'|;
      && 0 <= d <= |h + s| && (h + s)[d..] == h' + s[1..]
      && forall i | 0 <= i < d :: !Occurs(t, h + s, i)
  {
    hide Ccitt.Checks, Target.Size, Occurs;
    var b, h := s[0], History(t, st);
    match st.stage {
      case Head1 => Falls(t, h, s);
      case Head2 => Falls(t, h, s);
      case Cmd => if b == HEAD { FallsToCmd(t, s); } else { Falls(t, h, s); }
      case Len => if b == HEAD { FallsToHead2(t, s); } else { Falls(t, h, s); }
    }
  }

  /** A byte that is no FE and does not continue the match: nothing is left of it. */
  lemma Falls(t: Target, h: seq<byte>, s: seq<byte>)
    requires h <= [HEAD, HEAD, t.cmd] && s != [] && s[0] != HEAD
    requires |h| == 2 ==> s[0] != t.cmd
    requires |h| == 3 ==> s[0] != t.len && Matchable(t)
    ensures var d := |h| + 1;
      d <= |h + s| && (h + s)[d..] == [] + s[1..] && forall i | 0 <= i < d :: !Occurs(t, h + s, i)
  {
    var p, w := [HEAD, HEAD, t.cmd], h + s;
    assert h == p[..|h|];
    assert w[|h|] == s[0];
    assert w[|h| + 1..] == s[1..];
  }

  lemma FallsToCmd(t: Target, s: seq<byte>)
    requires s != [] && s[0] == HEAD && t.cmd != HEAD
    ensures ([HEAD, HEAD] + s)[1..] == [HEAD, HEAD] + s[1..] && !Occurs(t, [HEAD, HEAD] + s, 0)
  {
    assert ([HEAD, HEAD] + s)[2] == s[0];
  }

  lemma FallsToHead2(t: Target, s: seq<byte>)
    requires Matchable(t) && s != [] && s[0] == HEAD && t.len != HEAD
    ensures var w := [HEAD, HEAD, t.cmd] + s;
      w[3..] == [HEAD] + s[1..] && forall i | 0 <= i < 3 :: !Occurs(t, w, i)
  {
    assert ([HEAD, HEAD, t.cmd] + s)[3] == s[0];
  }

  lemma GrowingHistory(t: Target, h: seq<byte>, s: seq<byte>)
    requires s != []
    ensures match Expected(t, h + [s[0]], s[1..])
            case None => Expected(t, h, s).None?
            case Some((p, n)) => Expected(t, h, s) == Some((p, n + 1))
  {
    hide Expected;
    assert h + s == (h + [s[0]]) + s[1..];
    DropBytes(t, h, s, h + [s[0]], s[1..], 0);
  }

  /** At the tail byte the candidate is complete, and the machine judges it as the scan does. */
  lemma TailJudges(t: Target, st: State, s: seq<byte>)
    requires WellFormed(t, st) && st.stage.Tail? && s != []
    ensures var w := History(t, st) + s;
      && TailAt(t, 0) == |History(t, st)| && w[TailAt(t, 0)] == s[0]
      && PayloadAt(t, w, 0) == st.body
      && Valid(t, w, 0) == Step(t, st, s[0]).Delivered?
  {
    hide Ccitt.Checks, Target.Size;
    var h := History(t, st);
    var w := h + s;
    var n := t.Size();
    assert |h| == n + 6 && w[n + 4] == st.crcHi && w[n + 5] == st.crcLo && w[n + 6] == s[0];
    assert w[4..4 + n] == st.body;
  }

  lemma ScanRejects(t: Target, s: seq<byte>, from: nat)
    requires First(t, s, from).Some? && !Valid(t, s, First(t, s, from).value)
    requires TailAt(t, First(t, s, from).value) < |s|
    ensures Scan(t, s, from) == Scan(t, s, TailAt(t, First(t, s, from).value))
  {
    hide First, Valid, Target.Size;
  }

  /** A rejected candidate is forgotten up to its tail byte. */
  lemma TailResumes(t: Target, h: seq<byte>, s: seq<byte>)
    requires |h| == TailAt(t, 0) && s != []
    requires First(t, h + s, 0) == Some(0) && !Valid(t, h + s, 0)
    ensures match Expected(t, [s[0]], s[1..])
            case None => Expected(t, h, s).None?
            case Some((p, n)) => Expected(t, h, s) == Some((p, n + 1))
  {
    hide First, Valid, Expected, Scan, Target.Size;
    var w, k := h + s, TailAt(t, 0);
    assert w[k..] == s == [s[0]] + s[1..];
    ScanRejects(t, w, 0);
    ScanShifts(t, w, k, 0);
    ExpectedShifts(t, h, s, [s[0]], s[1..], k);
  }

  lemma TailRejects(t: Target, st: State, s: seq<byte>)
    requires WellFormed(t, st) && st.stage.Tail? && s != [] && Step(t, st, s[0]).Running?
    ensures var h' := History(t, Step(t, st, s[0]).st);
      match Expected(t, h', s[1..])
      case None => Expected(t, History(t, st), s).None?
      case Some((p, n)) => Expected(t, History(t, st), s) == Some((p, n + 1))
  {
    hide Valid, Expected, Target.Size, First, Scan;
    TailJudges(t, st, s);
    BodyStage(t, st, s);
    TailResumes(t, History(t, st), s);
    if s[0] != HEAD { DropBytes(t, [s[0]], s[1..], [], s[1..], 1); }
  }

  /** From every state the machine can be in, and for every stream, it delivers exactly what a scan of
      the remembered bytes followed by the stream delivers, and at exactly that byte. */
  lemma {:induction false} RunIsScan(t: Target, st: State, s: seq<byte>)
    requires Matchable(t) && WellFormed(t, st)
    ensures Run(t, st, s) == Expected(t, History(t, st), s)
    decreases s
  {
    hide Valid, Scan, Expected;
    if s == [] {
      EndOfStream(t, st);
    } else {
      match Step(t, st, s[0]) {
        case Delivered(p) => TailDelivers(t, st, s);
        case Running(st') =>
          StepKeepsWellFormed(t, st, s[0]);
          RunIsScan(t, st', s[1..]);
          if History(t, st') == History(t, st) + [s[0]] {
            GrowingHistory(t, History(t, st), s);
          } else if st.stage.Tail? {
            TailRejects(t, st, s);
          } else {
            if st.stage in {Payload, CrcHi, CrcLo} { BodyGrows(t, st, s[0]); }
            HeadFallback(t, st, s);
            DropBytes(t, History(t, st), s, History(t, st'), s[1..], |History(t, st)| + 1 - |History(t, st')|);
          }
      }
    }
  }

  lemma TailDelivers(t: Target, st: State, s: seq<byte>)
    requires WellFormed(t, st) && s != [] && Step(t, st, s[0]).Delivered?
    ensures Expected(t, History(t, st), s) == Some((st.body, 1))
    ensures Step(t, st, s[0]).payload == st.body
  {
    hide Valid;
    TailJudges(t, st, s);
    BodyStage(t, st, s);
  }

  lemma BodyGrows(t: Target, st: State, b: byte)
    requires WellFormed(t, st) && st.stage in {Payload, CrcHi, CrcLo}
    ensures Step(t, st, b).Running?
    ensures History(t, Step(t, st, b).st) == History(t, st) + [b]
  {}
}
